/** The server's search endpoint (`GET /api/drive/search`) and the index
    refresh endpoint (`GET /api/index/refresh`) that fills the cache it
    filters with. */
module SearchRoute {
  import opened Common
  import opened Text
  import opened Query
  import opened Folders
  import opened Drive
  import opened Cache

  // ---------------------------------------------------------------------
  // The Drive query

  const DocsMime: string := "application/vnd.google-apps.document"
  const SheetsMime: string := "application/vnd.google-apps.spreadsheet"
  const SlidesMime: string := "application/vnd.google-apps.presentation"

  /** The search parameters of the request URL; a parameter that is absent
      reads as `None`. */
  datatype SearchParams = SearchParams(q: Option<string>, fileType: Option<string>, nameOnly: Option<string>)

  /** The text to look for: `q`, or "" when it is absent. */
  function SearchText(p: SearchParams): string {
    p.q.GetOr("")
  }

  /** Names only when `nameOnly` is exactly "1". */
  function NameOnly(p: SearchParams): bool {
    p.nameOnly == Some("1")
  }

  /** The file-type groups the route knows, and their Google MIME types. */
  function TypeMime(fileType: Option<string>): (m: Option<string>)
    ensures fileType == Some("docs") ==> m == Some(DocsMime)
    ensures fileType == Some("sheets") ==> m == Some(SheetsMime)
    ensures fileType == Some("slides") ==> m == Some(SlidesMime)
    ensures m.None? <==> fileType !in {Some("docs"), Some("sheets"), Some("slides")}
  {
    match fileType
    case Some("docs") => Some(DocsMime)
    case Some("sheets") => Some(SheetsMime)
    case Some("slides") => Some(SlidesMime)
    case _ => None
  }

  /** The text clause for a non-empty `q`, with its first apostrophe
      escaped. */
  function TextClause(q: string, nameOnly: bool): string {
    ClausePrefix(nameOnly) + EscapeFirst(q) + "'"
  }

  function ClausePrefix(nameOnly: bool): string {
    if nameOnly then "name contains '" else "fullText contains '"
  }

  function MimeClause(mime: string): string {
    "mimeType = '" + mime + "'"
  }

  /** The clauses of the Drive query, in order: not trashed, then the text
      clause when `q` is not empty, then the MIME-type clause of a known
      file type. */
  function SearchClauses(p: SearchParams): (parts: seq<string>)
    ensures |parts| == 1 + (if SearchText(p) != "" then 1 else 0) + (if TypeMime(p.fileType).Some? then 1 else 0)
    ensures parts[0] == TrashedClause
    ensures SearchText(p) != "" ==> parts[1] == TextClause(SearchText(p), NameOnly(p))
    ensures TypeMime(p.fileType).Some? ==> parts[|parts| - 1] == MimeClause(TypeMime(p.fileType).value)
  {
    [TrashedClause]
    + (if SearchText(p) != "" then [TextClause(SearchText(p), NameOnly(p))] else [])
    + (if TypeMime(p.fileType).Some? then [MimeClause(TypeMime(p.fileType).value)] else [])
  }

  /** The query string sent to Drive: the trash clause first, followed by
      the text clause when there is text. */
  function SearchQuery(p: SearchParams): (q: string)
    ensures TrashedClause <= q
    ensures SearchText(p) != "" ==> TrashedClause + ClauseSeparator + TextClause(SearchText(p), NameOnly(p)) <= q
  {
    var parts := SearchClauses(p);
    JoinStartsWith(parts, ClauseSeparator);
    if |parts| >= 2 then JoinFirstTwo(parts, ClauseSeparator); Join(parts, ClauseSeparator)
    else Join(parts, ClauseSeparator)
  }

  /** The clauses as the handler pushes them, one `if` at a time. */
  method BuildClauses(p: SearchParams) returns (qParts: seq<string>)
    ensures qParts == SearchClauses(p)
  {
    var qParam := p.q.GetOr("");
    var fileType := p.fileType;
    var nameOnly := p.nameOnly == Some("1");
    qParts := [TrashedClause];
    if qParam != "" {
      if nameOnly {
        qParts := qParts + ["name contains '" + EscapeFirst(qParam) + "'"];
      } else {
        qParts := qParts + ["fullText contains '" + EscapeFirst(qParam) + "'"];
      }
    }
    if fileType == Some("docs") {
      qParts := qParts + ["mimeType = '" + DocsMime + "'"];
    }
    if fileType == Some("sheets") {
      qParts := qParts + ["mimeType = '" + SheetsMime + "'"];
    }
    if fileType == Some("slides") {
      qParts := qParts + ["mimeType = '" + SlidesMime + "'"];
    }
  }

  /** Every query starts with the trash clause; with neither text nor a
      known type it is that clause alone. */
  lemma SearchQueryStartsWithTrashed(p: SearchParams)
    ensures TrashedClause <= SearchQuery(p)
    ensures SearchText(p) == "" && TypeMime(p.fileType).None? ==> SearchQuery(p) == TrashedClause
  {
    JoinStartsWith(SearchClauses(p), ClauseSeparator);
  }

  /** Text and type together give the three clauses joined by " and ". */
  lemma SearchQueryFull(p: SearchParams)
    requires SearchText(p) != "" && TypeMime(p.fileType).Some?
    ensures SearchQuery(p) == TrashedClause + ClauseSeparator + TextClause(SearchText(p), NameOnly(p))
                              + ClauseSeparator + MimeClause(TypeMime(p.fileType).value)
  {
    var text := TextClause(SearchText(p), NameOnly(p));
    var mime := MimeClause(TypeMime(p.fileType).value);
    assert SearchClauses(p) == [TrashedClause, text, mime];
    JoinThree(TrashedClause, text, mime, ClauseSeparator);
  }

  /** The route escapes only the first apostrophe: searching for `a'b'`
      sends a literal that closes at its second apostrophe, so the quote
      meant to close it is left over in the query. */
  lemma RouteQueryEndsLiteralEarly()
    ensures SearchClauses(SearchParams(Some("a'b'"), None, None))[1] == "fullText contains 'a\\'b''"
    ensures ReadLiteral(SearchClauses(SearchParams(Some("a'b'"), None, None))[1][|ClausePrefix(false)|..])
            == Some(("a'b", "'"))
  {
    EscapeFirstEndsLiteralEarly();
    var p := SearchParams(Some("a'b'"), None, None);
    assert SearchText(p) == "a'b'" && !NameOnly(p);
    var c := SearchClauses(p)[1];
    assert c == ClausePrefix(false) + (EscapeFirst("a'b'") + "'");
    assert c[|ClausePrefix(false)|..] == EscapeFirst("a'b'") + "'";
  }

  /** The text clause as the route evidently means it, with every backslash
      and apostrophe escaped: read from its opening quote, its literal closes
      exactly at the clause's last character and holds `q`, whatever `q` is.
      On text without a backslash and with at most one apostrophe it is the
      clause the route builds. */
  function EscapedTextClause(q: string, nameOnly: bool): (c: string)
    ensures |c| >= |ClausePrefix(nameOnly)| + 1
    ensures c[..|ClausePrefix(nameOnly)|] == ClausePrefix(nameOnly)
    ensures ReadLiteral(c[|ClausePrefix(nameOnly)|..]) == Some((q, ""))
    ensures '\\' !in q && Count(q, '\'') <= 1 ==> c == TextClause(q, nameOnly)
  {
    EscapedClauseReads(q, nameOnly);
    EscapedClauseAgrees(q, nameOnly);
    ClausePrefix(nameOnly) + EscapeLiteral(q) + "'"
  }

  lemma EscapedClauseReads(q: string, nameOnly: bool)
    ensures (ClausePrefix(nameOnly) + EscapeLiteral(q) + "'")[|ClausePrefix(nameOnly)|..] == EscapeLiteral(q) + "'" + ""
    ensures ReadLiteral(EscapeLiteral(q) + "'" + "") == Some((q, ""))
  {
    var lit := EscapeLiteral(q) + "'";
    assert ClausePrefix(nameOnly) + EscapeLiteral(q) + "'" == ClausePrefix(nameOnly) + lit;
    assert lit + "" == lit;
    ReadEscapedLiteral(q, "");
  }

  lemma EscapedClauseAgrees(q: string, nameOnly: bool)
    ensures '\\' !in q && Count(q, '\'') <= 1 ==> ClausePrefix(nameOnly) + EscapeLiteral(q) + "'" == TextClause(q, nameOnly)
  {
    if '\\' !in q && Count(q, '\'') <= 1 {
      EscapeFirstAgreesOnOneQuote(q);
      EscapeAllWithoutBackslash(q);
    }
  }

  // ---------------------------------------------------------------------
  // The subtree filter

  /** The index set of the handler: a copy of the cached ids when the cache
      holds any, and no set otherwise. */
  function IndexSet(cache: IndexCache): (s: Option<seq<string>>)
    requires cache.Valid()
    reads cache
    ensures s.Some? <==> cache.HasIndex()
    ensures s.Some? ==> forall x :: x in s.value <==> x in cache.ids
  {
    if cache.HasIndex() then Some(Dedup(cache.ListIndexIds())) else None
  }

  /** Whether a Drive result belongs to the subtree: with an index, its id
      is in the index; without one, it is the root or a direct child of it. */
  function InSubtree(idsSet: Option<seq<string>>, rootId: string, f: DriveFile): (b: bool)
    ensures idsSet.Some? ==> (b <==> f.id in idsSet.value)
    ensures idsSet.None? && f.id == rootId ==> b
    ensures idsSet.None? && f.parents.None? ==> (b <==> f.id == rootId)
    ensures idsSet.None? && f.parents.Some? ==> (b <==> rootId in f.parents.value || f.id == rootId)
  {
    match idsSet
    case None => rootId in f.parents.GetOr([]) || f.id == rootId
    case Some(ids) => f.id in ids
  }

  /** The results kept: those in the subtree, in Drive's order and with
      Drive's repeats. */
  function SubtreeFilter(files: seq<DriveFile>, idsSet: Option<seq<string>>, rootId: string): (r: seq<DriveFile>)
    ensures IsSubseq(r, files)
    ensures idsSet.Some? ==> forall f :: f in r <==> f in files && f.id in idsSet.value
    ensures idsSet.None? ==> forall f :: f in r <==> f in files && (rootId in f.parents.GetOr([]) || f.id == rootId)
    ensures forall f :: Count(r, f) == if InSubtree(idsSet, rootId, f) then Count(files, f) else 0
  {
    Filter(files, (f: DriveFile) => InSubtree(idsSet, rootId, f))
  }

  // ---------------------------------------------------------------------
  // The handler

  /** The JSON answer: an error with status 401, or the kept files. */
  datatype SearchResponse = Unauthorised | Found(files: seq<DriveFile>)

  function Status(r: SearchResponse): int {
    if r.Unauthorised? then 401 else 200
  }

  /** `GET /api/drive/search`. `signedIn` is whether the request carries a
      session, `driveSearch` Drive's answer (its `files` member) to a query,
      and `cache` the process-wide index. The second result is the query
      sent to Drive, if any. */
  method Get(signedIn: bool, p: SearchParams, rootId: string, cache: IndexCache,
             driveSearch: string -> Option<seq<DriveFile>>)
    returns (resp: SearchResponse, query: Option<string>)
    requires cache.Valid()
    ensures !signedIn ==> resp == Unauthorised && Status(resp) == 401 && query.None?
    ensures signedIn ==> query == Some(SearchQuery(p))
    ensures signedIn ==> resp == Found(SubtreeFilter(ListedFiles(driveSearch(SearchQuery(p))), IndexSet(cache), rootId))
    ensures signedIn ==> resp.Found? && IsSubseq(resp.files, ListedFiles(driveSearch(SearchQuery(p))))
    ensures signedIn ==>
              forall f :: Count(resp.files, f) ==
                (if InSubtree(IndexSet(cache), rootId, f) then Count(ListedFiles(driveSearch(SearchQuery(p))), f) else 0)
    ensures signedIn && cache.HasIndex() ==>
              forall f :: f in resp.files <==> f in ListedFiles(driveSearch(SearchQuery(p))) && f.id in cache.ids
    ensures signedIn && !cache.HasIndex() ==>
              forall f :: f in resp.files <==>
                (f in ListedFiles(driveSearch(SearchQuery(p))) && (rootId in f.parents.GetOr([]) || f.id == rootId))
  {
    if !signedIn {
      return Unauthorised, None;
    }
    var qParts := BuildClauses(p);
    var q := Join(qParts, ClauseSeparator);
    var files := ListedFiles(driveSearch(q));
    var idsSet: Option<seq<string>> := None;
    if cache.HasIndex() {
      idsSet := Some(Dedup(cache.ListIndexIds()));
    }
    var filtered := SubtreeFilter(files, idsSet, rootId);
    resp, query := Found(filtered), Some(q);
  }

  // ---------------------------------------------------------------------
  // The refresh endpoint

  datatype RefreshResponse = RefreshUnauthorised | Refreshed(count: int)

  /** `GET /api/index/refresh`: crawl the root with the default depth bound
      and store the result in the cache, stamped with the clock reading
      `now`. */
  method Refresh(signedIn: bool, drive: DriveTree, rootId: string, cache: IndexCache, now: int)
    returns (resp: RefreshResponse)
    requires cache.Valid()
    modifies cache
    ensures cache.Valid()
    ensures !signedIn ==> resp == RefreshUnauthorised && unchanged(cache)
    ensures signedIn ==> Elems(cache.ids) == Reach(drive, rootId, DefaultMaxDepth)
    ensures signedIn ==> cache.HasIndex() && cache.updatedAt == now
    ensures signedIn ==> resp == Refreshed(|cache.ids|)
  {
    if !signedIn {
      return RefreshUnauthorised;
    }
    var ids, _ := CrawlDescendants(drive, rootId, DefaultMaxDepth);
    ReachRoot(drive, rootId, DefaultMaxDepth);
    cache.SetIndexIds(ids, now);
    DedupDistinct(ids);
    resp := Refreshed(|ids|);
  }

  /** After a refresh, a search keeps exactly the Drive results whose id
      the bounded crawl reaches. */
  lemma SearchAfterRefresh(drive: DriveTree, rootId: string, files: seq<DriveFile>, ids: seq<string>)
    requires Elems(ids) == Reach(drive, rootId, DefaultMaxDepth)
    ensures ids != []
    ensures forall f :: f in SubtreeFilter(files, Some(ids), rootId) <==>
                        f in files && f.id in Reach(drive, rootId, DefaultMaxDepth)
  {
    ReachRoot(drive, rootId, DefaultMaxDepth);
    assert rootId in Elems(ids);
  }
}
