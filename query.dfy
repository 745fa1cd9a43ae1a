/**
 * The read side of the server (run.go): the /meta, /sticker, /pkg-count and
 * /pkg-list handlers. A request is its form values; a response is a status
 * and a body, or an aborted connection when the handler panics. Headers,
 * the request log and the database lock are not modelled.
 */
module Query {
  import opened Wrappers
  import opened Text
  import opened Sorting
  import opened Tokenizer
  import opened Library
  import opened FileSystem
  import opened Catalog

  /** The query and form values of a request. */
  type Form = map<string, string>

  /** r.FormValue: the value, or "" when the parameter is absent. */
  function FormValue(form: Form, key: string): string
  {
    if key in form then form[key] else ""
  }

  /** What the client receives: a status and a body, or nothing when the handler panicked. */
  datatype Response = Response(status: int, body: string) | Aborted

  const StatusOK := 200
  const StatusBadRequest := 400
  const StatusNotFound := 404
  const StatusInternalError := 500

  /** http.Error: the status and the message followed by a newline. */
  function Error(status: int, message: string): Response
  {
    Response(status, message + "\n")
  }

  const InternalError := Error(StatusInternalError, "internal server error")

  // ---------------------------------------------------------------- /meta

  /**
   * metaHandler: the stored metadata text of one package. The package id
   * must parse as an integer and the repository must be one of the three
   * partition names; then a missing row is 404 and any other store error 500.
   */
  function MetaHandler(form: Form, store: StickerStore, queryOk: bool): (resp: Response)
    reads store
    requires store.Valid()
    ensures resp.Response?
    ensures resp.status == StatusBadRequest <==>
              ParseInt(FormValue(form, "pkg")).None? || ParseRepo(FormValue(form, "repo")).None?
    ensures resp.status == StatusOK <==>
              && ParseInt(FormValue(form, "pkg")).Some? && ParseRepo(FormValue(form, "repo")).Some? && queryOk
              && ParseInt(FormValue(form, "pkg")).value in store.tables[ParseRepo(FormValue(form, "repo")).value].catalog
    ensures resp.status == StatusOK ==>
              resp.body == store.tables[ParseRepo(FormValue(form, "repo")).value].catalog[ParseInt(FormValue(form, "pkg")).value].meta
    ensures resp.status == StatusNotFound <==>
              && ParseInt(FormValue(form, "pkg")).Some? && ParseRepo(FormValue(form, "repo")).Some? && queryOk
              && ParseInt(FormValue(form, "pkg")).value !in store.tables[ParseRepo(FormValue(form, "repo")).value].catalog
  {
    var pkg := ParseInt(FormValue(form, "pkg"));
    if pkg.None? then Error(StatusBadRequest, "parameter pkg must be an integer")
    else
      var repo := ParseRepo(FormValue(form, "repo"));
      if repo.None? then Error(StatusBadRequest, "parameter repo format error")
      else
        match store.Lookup(repo, pkg.value, queryOk)
        case Found(meta) => Response(StatusOK, meta)
        case NoRows => Error(StatusNotFound, "no such package")
        case QueryFailed => InternalError
  }

  /**
   * A package that insert has just stored is served back by /meta, under its
   * printed id and its partition's name, with exactly the file's text.
   */
  lemma MetaServesInserted(store: StickerStore, before: map<Repo, Partition>, text: string, ext: Externals,
                           id: int, now: int, faults: TxFaults, r: Repo)
    requires store.Valid() && ValidExternals(ext)
    requires Official in before && Creator in before && Custom in before
    requires MinInt64 <= id <= MaxInt64
    requires InsertEffect(before, Some(text), ext, id, now, faults) == (Inserted(r), store.tables)
    ensures MetaHandler(map["pkg" := IntToString(id), "repo" := TableName(r)], store, true) == Response(StatusOK, text)
  {
    ParseIntOfIntToString(id);
    ParseRepoOfTableName(r);
    var form := map["pkg" := IntToString(id), "repo" := TableName(r)];
    assert FormValue(form, "pkg") == IntToString(id);
    assert FormValue(form, "repo") == TableName(r);
  }

  // ------------------------------------------------------------- /sticker

  /** The image extension every served sticker file carries. */
  const ImageExtension := ".jpg"

  /** The sticker parameter: a tab image, or an integer once every "_key" is deleted. */
  predicate StickerNameValid(s: string)
  {
    s == "tab_on" || s == "tab_off" || ParseInt(ReplaceAll(s, "_key", "")).Some?
  }

  /** Failures of the file system that do not follow from the directory's contents. */
  datatype FileFaults = FileFaults(openOk: bool, copyOk: bool)

  /**
   * stickerHandler: the image <pkg>/<sticker>.jpg, raw or base64-encoded.
   * The directory is the pkg parameter as given (it is only checked to
   * parse). A missing file is 404, any other open error 500, and a failed
   * copy panics.
   */
  function StickerHandler(form: Form, disk: Disk, ext: Externals, faults: FileFaults): (resp: Response)
    reads disk
    ensures resp.Response? && resp.status == StatusBadRequest <==>
              ParseInt(FormValue(form, "pkg")).None? || !StickerNameValid(FormValue(form, "sticker"))
    ensures ParseInt(FormValue(form, "pkg")).None? ==> resp == Error(StatusBadRequest, "parameter pkg must be an integer")
    ensures ParseInt(FormValue(form, "pkg")).Some? && !StickerNameValid(FormValue(form, "sticker")) ==>
              resp == Error(StatusBadRequest, "parameter sticker format error")
    ensures resp.Response? && resp.status == StatusNotFound <==>
              && ParseInt(FormValue(form, "pkg")).Some? && StickerNameValid(FormValue(form, "sticker"))
              && disk.ReadFile(FormValue(form, "pkg"), FormValue(form, "sticker") + ImageExtension).None?
    ensures resp.Response? && resp.status == StatusOK <==>
              && ParseInt(FormValue(form, "pkg")).Some? && StickerNameValid(FormValue(form, "sticker"))
              && disk.ReadFile(FormValue(form, "pkg"), FormValue(form, "sticker") + ImageExtension).Some?
              && faults.openOk && faults.copyOk
    ensures resp.Response? && resp.status == StatusOK ==>
              var image := disk.dirs[FormValue(form, "pkg")][FormValue(form, "sticker") + ImageExtension];
              resp.body == if FormValue(form, "base64") == "1" then ext.base64(image) else image
    ensures resp.Aborted? ==> faults.openOk && !faults.copyOk
  {
    var pkg := FormValue(form, "pkg");
    if ParseInt(pkg).None? then Error(StatusBadRequest, "parameter pkg must be an integer")
    else
      var sticker := FormValue(form, "sticker");
      if !StickerNameValid(sticker) then Error(StatusBadRequest, "parameter sticker format error")
      else
        var file := disk.ReadFile(pkg, sticker + ImageExtension);
        if file.None? then Error(StatusNotFound, "no such file")
        else if !faults.openOk then InternalError
        else if !faults.copyOk then Aborted
        else if FormValue(form, "base64") == "1" then Response(StatusOK, ext.base64(file.value))
        else Response(StatusOK, file.value)
  }

  /** The characters Atoi accepts: ASCII digits and a sign. */
  predicate NumeralChar(c: char)
  {
    IsAsciiDigit(c) || c == '+' || c == '-'
  }

  /** Deleting a pattern and then parsing an integer leaves no room for characters outside the pattern other than digits and signs. */
  lemma DeletedThenParsed(s: string, pat: string)
    requires pat != [] && ParseInt(ReplaceAll(s, pat, "")).Some?
    ensures forall c :: c in s && c !in pat ==> NumeralChar(c)
  {
    forall c | c in s && c !in pat ensures NumeralChar(c) {
      ReplaceAllKeepsOthers(s, pat, "", c);
      ParseIntCharacters(ReplaceAll(s, pat, ""), c);
    }
  }

  /**
   * The served path never leaves the package's directory: an accepted pkg
   * and sticker hold neither a slash nor a dot, so <pkg>/<sticker>.jpg has
   * exactly two components and the extension .jpg.
   */
  lemma StickerPathConfined(pkg: string, sticker: string)
    requires ParseInt(pkg).Some? && StickerNameValid(sticker)
    ensures '/' !in pkg && '.' !in pkg
    ensures '/' !in sticker && '.' !in sticker
    ensures Ext(sticker + ImageExtension) == ImageExtension
  {
    NumeralPlain(pkg);
    StickerNamePlain(sticker);
    ImageNameExt(sticker);
  }

  lemma NumeralPlain(pkg: string)
    requires ParseInt(pkg).Some?
    ensures '/' !in pkg && '.' !in pkg
  {
    forall c | c in pkg ensures NumeralChar(c) {
      ParseIntCharacters(pkg, c);
    }
  }

  lemma StickerNamePlain(sticker: string)
    requires StickerNameValid(sticker)
    ensures '/' !in sticker && '.' !in sticker
  {
    if sticker != "tab_on" && sticker != "tab_off" {
      DeletedThenParsed(sticker, "_key");
      assert '/' !in "_key" && '.' !in "_key";
    }
  }

  lemma ImageNameExt(name: string)
    ensures Ext(name + ImageExtension) == ImageExtension
  {
    ExtOfSuffix(name, ImageExtension);
  }

  /** Every sticker id printed by the server is a valid sticker parameter: the file of each stored sticker can be requested. */
  lemma StickerIdIsValidName(n: int)
    requires MinInt64 <= n <= MaxInt64
    ensures StickerNameValid(IntToString(n))
  {
    var s := IntToString(n);
    forall i: nat ensures !OccursAt(s, "_key", i) {
      if i + 4 <= |s| {
        assert s[i..i + 4][0] == s[i];
        if n >= 0 || i > 0 {
          assert IsAsciiDigit(if n < 0 then s[1..][i - 1] else s[i]);
        }
      }
    }
    ContainsIff(s, "_key");
    ReplaceAllAbsent(s, "_key", "");
    ParseIntOfIntToString(n);
  }

  // ----------------------------------------------------------- selection

  /**
   * The packages a listing or count selects: the whole partition without a
   * query, otherwise the rows of the catalog joined with the full-text rows
   * that match transformQueryText(q).
   */
  function Selected(p: Partition, ext: Externals, q: string): (ids: set<int>)
    ensures ids <= p.catalog.Keys
    ensures q == "" ==> ids == p.catalog.Keys
  {
    if q == "" then p.catalog.Keys
    else MatchedIds(p, ext, Normalize(ext.stem, q)) * p.catalog.Keys
  }

  /** On a consistent partition every full-text match has its catalog row, so the join keeps all matches. */
  lemma SelectedMatches(p: Partition, ext: Externals, q: string)
    requires Consistent(p) && q != ""
    ensures Selected(p, ext, q) == MatchedIds(p, ext, Normalize(ext.stem, q))
  {
    MatchedIdsInCatalog(p, ext, Normalize(ext.stem, q));
  }

  // ----------------------------------------------------------- /pkg-count

  /**
   * pkgCountHandler: the number of packages in the partition, or of those
   * matching q; the repository must be one of the three partition names.
   */
  function PkgCountHandler(form: Form, store: StickerStore, ext: Externals, queryOk: bool): (resp: Response)
    reads store
    requires store.Valid()
    ensures resp.Response?
    ensures resp.status == StatusBadRequest <==> ParseRepo(FormValue(form, "repo")).None?
    ensures resp.status == StatusOK <==> ParseRepo(FormValue(form, "repo")).Some? && queryOk
    ensures resp.status == StatusOK ==>
              resp.body == IntToString(|Selected(store.tables[ParseRepo(FormValue(form, "repo")).value], ext, FormValue(form, "q"))|)
  {
    var repo := ParseRepo(FormValue(form, "repo"));
    if repo.None? then Error(StatusBadRequest, "parameter repo format error")
    else if !queryOk then InternalError
    else
      var p := store.tables[repo.value];
      var q := FormValue(form, "q");
      var count := if q == "" then |p.catalog| else |MatchedIds(p, ext, Normalize(ext.stem, q)) * p.catalog.Keys|;
      Response(StatusOK, IntToString(count))
  }

  /** Without a query, /pkg-count reports the number that updateRepoCount writes into the summary. */
  lemma CountAgreesWithSummary(store: StickerStore, ext: Externals, r: Repo, summary: map<Repo, int>)
    requires store.Valid() && r in summary
    ensures PkgCountHandler(map["repo" := TableName(r)], store, ext, true)
            == Response(StatusOK, IntToString(RefreshedOne(summary, store.tables, r, CountFaults(true, true))[r]))
  {
    ParseRepoOfTableName(r);
    var form := map["repo" := TableName(r)];
    assert FormValue(form, "repo") == TableName(r);
    assert FormValue(form, "q") == "";
    assert |store.tables[r].catalog.Keys| == |store.tables[r].catalog|;
  }

  // ----------------------------------------------------------- /pkg-list

  /** A validated listing request. */
  datatype ListRequest = ListRequest(page: int, size: int, repo: Repo, order: SortOrder, q: string)

  datatype Checked = Accepted(req: ListRequest) | Rejected(message: string)

  /**
   * The validation of pkgHandler: page, size, repo and order in that order,
   * reporting the first that fails; q is free text.
   */
  function ParseListRequest(form: Form): (c: Checked)
    ensures c.Accepted? <==>
              && ParseInt(FormValue(form, "page")).Some? && ParseInt(FormValue(form, "size")).Some?
              && ParseRepo(FormValue(form, "repo")).Some? && ParseOrder(FormValue(form, "order")).Some?
    ensures c.Accepted? ==>
              c.req == ListRequest(ParseInt(FormValue(form, "page")).value, ParseInt(FormValue(form, "size")).value,
                                   ParseRepo(FormValue(form, "repo")).value, ParseOrder(FormValue(form, "order")).value,
                                   FormValue(form, "q"))
    ensures c == Rejected("parameter page must be an integer") <==> ParseInt(FormValue(form, "page")).None?
    ensures c == Rejected("parameter size must be an integer") <==>
              ParseInt(FormValue(form, "page")).Some? && ParseInt(FormValue(form, "size")).None?
    ensures c == Rejected("parameter repo format error") <==>
              && ParseInt(FormValue(form, "page")).Some? && ParseInt(FormValue(form, "size")).Some?
              && ParseRepo(FormValue(form, "repo")).None?
    ensures c == Rejected("parameter order format error") <==>
              && ParseInt(FormValue(form, "page")).Some? && ParseInt(FormValue(form, "size")).Some?
              && ParseRepo(FormValue(form, "repo")).Some? && ParseOrder(FormValue(form, "order")).None?
  {
    var page := ParseInt(FormValue(form, "page"));
    var size := ParseInt(FormValue(form, "size"));
    var repo := ParseRepo(FormValue(form, "repo"));
    var order := ParseOrder(FormValue(form, "order"));
    if page.None? then Rejected("parameter page must be an integer")
    else if size.None? then Rejected("parameter size must be an integer")
    else if repo.None? then Rejected("parameter repo format error")
    else if order.None? then Rejected("parameter order format error")
    else Accepted(ListRequest(page.value, size.value, repo.value, order.value, FormValue(form, "q")))
  }

  const TwoTo64 := 0x1_0000_0000_0000_0000

  /** Go's int arithmetic on a 64-bit platform: the result is taken modulo 2^64 into the signed range. */
  function Wrap64(x: int): (r: int)
    ensures MinInt64 <= r <= MaxInt64
    ensures (r - x) % TwoTo64 == 0
    ensures MinInt64 <= x <= MaxInt64 ==> r == x
  {
    (x - MinInt64) % TwoTo64 + MinInt64
  }

  /** The OFFSET bound in the listing queries: (page-1)*size in Go's wrapping int arithmetic. */
  function Offset(page: int, size: int): int
  {
    Wrap64(Wrap64(page - 1) * size)
  }

  /** Whenever (page-1)*size fits in 64 bits the offset is that product, and it is never negative. */
  lemma OffsetOfPage(page: int, size: int)
    requires 1 <= page <= MaxInt64 && 0 <= size
    requires (page - 1) * size <= MaxInt64
    ensures Offset(page, size) == (page - 1) * size >= 0
  {
    assert (page - 1) * size >= 0;
  }

  /** A page number past 2^62 with size 4 wraps the offset to 0: the first page is served again. */
  lemma OffsetWrapsAround()
    ensures Offset(0x4000_0000_0000_0001, 4) == 0
  {
  }

  function Max(a: int, b: int): int { if a < b then b else a }
  function Min(a: int, b: int): int { if a < b then a else b }

  /**
   * LIMIT limit OFFSET offset in SQLite: skip `offset` rows (none when it is
   * negative), then take `limit` rows (all of them when it is negative).
   */
  function Window<T>(rows: seq<T>, limit: int, offset: int): (w: seq<T>)
    ensures limit >= 0 ==> |w| == Min(limit, Max(0, |rows| - Max(offset, 0)))
    ensures limit < 0 ==> |w| == Max(0, |rows| - Max(offset, 0))
    ensures forall k :: 0 <= k < |w| ==> Max(offset, 0) + k < |rows| && w[k] == rows[Max(offset, 0) + k]
  {
    var start := Min(Max(offset, 0), |rows|);
    var end := if limit < 0 || start + limit > |rows| then |rows| else start + limit;
    rows[start..end]
  }

  /** A window with a non-negative limit and offset is the slice of rows from the offset, clipped to the end. */
  lemma WindowSlice<T>(rows: seq<T>, limit: int, offset: int)
    requires limit >= 0 && offset >= 0
    ensures Window(rows, limit, offset) == rows[Min(offset, |rows|)..Min(offset + limit, |rows|)]
  {
  }

  /** The rows of pages 1 to n, read one page after the other. */
  function PagesThrough<T>(rows: seq<T>, size: nat, n: nat): seq<T>
  {
    if n == 0 then [] else PagesThrough(rows, size, n - 1) + Window(rows, size, (n - 1) * size)
  }

  /** The rows before an offset followed by the window there are the rows before the window's end. */
  lemma PrefixThenWindow<T>(rows: seq<T>, lo: nat, size: nat)
    ensures rows[..Min(lo, |rows|)] + Window(rows, size, lo) == rows[..Min(lo + size, |rows|)]
  {
    WindowSlice(rows, size, lo);
    var a, b := Min(lo, |rows|), Min(lo + size, |rows|);
    assert rows[..a] + rows[a..b] == rows[..b];
  }

  lemma MulSucc(m: nat, size: nat)
    ensures (m + 1) * size == m * size + size
  {
  }

  /** Reading pages 1, 2, ..., n in turn yields the first n*size rows, each once and in order: pages neither overlap nor skip. */
  lemma {:induction false} PagesTile<T>(rows: seq<T>, size: nat, n: nat)
    ensures PagesThrough(rows, size, n) == rows[..Min(n * size, |rows|)]
  {
    if n > 0 {
      PagesTile(rows, size, n - 1);
      var lo := (n - 1) * size;
      MulSucc(n - 1, size);
      assert n * size == lo + size;
      PrefixThenWindow(rows, lo, size);
    }
  }

  /** Row i of the ordered result is served by the page whose range holds it, at its place within the page. */
  lemma RowOnItsPage<T>(rows: seq<T>, size: int, page: int, i: int)
    requires size > 0 && 1 <= page <= MaxInt64
    requires (page - 1) * size <= i < (page - 1) * size + size && i < |rows| <= MaxInt64
    ensures var w := Window(rows, size, Offset(page, size));
            i - (page - 1) * size < |w| && w[i - (page - 1) * size] == rows[i]
  {
    OffsetOfPage(page, size);
  }

  /** The JSON array listPackage and queryPackage write: the items joined by commas, in brackets. */
  function JsonArray(items: seq<string>): (r: string)
    ensures |r| >= 2 && r[0] == '[' && r[|r| - 1] == ']'
    ensures items == [] ==> r == "[]"
    ensures |items| == 1 ==> r == "[" + items[0] + "]"
  {
    "[" + Join(items, ",") + "]"
  }

  /** The meta texts of the given packages, in the given order. */
  function Metas(catalog: map<int, CatalogRow>, ids: seq<int>): (ms: seq<string>)
    requires forall k :: 0 <= k < |ids| ==> ids[k] in catalog
    ensures |ms| == |ids|
    ensures forall k :: 0 <= k < |ids| ==> ms[k] == catalog[ids[k]].meta
  {
    seq(|ids|, k requires 0 <= k < |ids| => catalog[ids[k]].meta)
  }

  /** `rows` is the ORDER BY result over `ids`: each once, by the sort key and then by packageId. */
  ghost predicate Ordered(catalog: map<int, CatalogRow>, order: SortOrder, ids: set<int>, rows: seq<int>)
  {
    && |rows| == |ids|
    && (forall x :: x in rows <==> x in ids)
    && SortedBy(rows, (a, b) => RowBefore(catalog, order, a, b))
  }

  /** ORDER BY with the packageId tie-break leaves no choice: two orderings of the same packages are the same sequence. */
  lemma OrderedUnique(catalog: map<int, CatalogRow>, order: SortOrder, ids: set<int>, a: seq<int>, b: seq<int>)
    requires Ordered(catalog, order, ids, a) && Ordered(catalog, order, ids, b)
    ensures a == b
  {
    RowBeforeIsStrictTotalOrder(catalog, order);
    forall x ensures x in a <==> x in b {
      assert x in a <==> x in ids;
    }
    SortedUnique(a, b, (x, y) => RowBefore(catalog, order, x, y));
  }

  /** Whether BEGIN, the SELECT and COMMIT succeed. */
  datatype DbFaults = DbFaults(beginOk: bool, queryOk: bool, commitOk: bool)

  /**
   * The largest capacity make([]string, 0, size) accepts on a 64-bit Linux
   * target: a string header takes 16 bytes and the Go runtime refuses an
   * allocation above 2^48 bytes, so a larger size panics like a negative one.
   */
  const MaxSliceCap := 0x1000_0000_0000

  /** Whether make([]string, 0, size) returns instead of panicking. */
  predicate SliceCapOk(size: int)
  {
    0 <= size <= MaxSliceCap
  }

  /**
   * The response listPackage and queryPackage give for a validated request:
   * 500 when BEGIN or the SELECT fails; a panic at make([]string, 0, size)
   * when size is negative or too large; 500 when COMMIT fails; otherwise the
   * window of the ordered selection as a JSON array of meta texts.
   */
  ghost predicate Listed(p: Partition, ext: Externals, req: ListRequest, faults: DbFaults, resp: Response)
  {
    if !faults.beginOk || !faults.queryOk then resp == InternalError
    else if !SliceCapOk(req.size) then resp == Aborted
    else if !faults.commitOk then resp == InternalError
    else
      exists rows ::
        && Ordered(p.catalog, req.order, Selected(p, ext, req.q), rows)
        && (forall k :: 0 <= k < |rows| ==> rows[k] in p.catalog)
        && resp == Response(StatusOK, JsonArray(Metas(p.catalog, Window(rows, req.size, Offset(req.page, req.size)))))
  }

  /** The scan loop: the meta text of every row, appended in row order. */
  method ScanMetas(catalog: map<int, CatalogRow>, rows: seq<int>) returns (metalist: seq<string>)
    requires forall k :: 0 <= k < |rows| ==> rows[k] in catalog
    ensures metalist == Metas(catalog, rows)
  {
    metalist := [];
    var i := 0;
    while i < |rows|
      invariant 0 <= i <= |rows|
      invariant metalist == Metas(catalog, rows[..i])
    {
      metalist := metalist + [catalog[rows[i]].meta];
      i := i + 1;
    }
    assert rows[..i] == rows;
  }

  /** From the selected ids on: make the slice, scan the ordered window, commit and write the array. */
  method RespondWithPage(store: StickerStore, ext: Externals, req: ListRequest, ids: set<int>, commitOk: bool)
    returns (resp: Response)
    requires store.Valid() && ids == Selected(store.tables[req.repo], ext, req.q)
    ensures Listed(store.tables[req.repo], ext, req, DbFaults(true, true, commitOk), resp)
  {
    if !SliceCapOk(req.size) {
      return Aborted;
    }
    var p := store.tables[req.repo];
    var rows := store.OrderedIds(req.repo, req.order, ids);
    var window := Window(rows, req.size, Offset(req.page, req.size));
    var metalist := ScanMetas(p.catalog, window);
    if !commitOk {
      return InternalError;
    }
    resp := Response(StatusOK, JsonArray(metalist));
    assert Ordered(p.catalog, req.order, ids, rows);
  }

  /** listPackage: every package of the partition, ordered and windowed. */
  method ListPackage(store: StickerStore, ext: Externals, req: ListRequest, faults: DbFaults) returns (resp: Response)
    requires store.Valid() && req.q == ""
    ensures Listed(store.tables[req.repo], ext, req, faults, resp)
  {
    if !faults.beginOk || !faults.queryOk {
      return InternalError;
    }
    resp := RespondWithPage(store, ext, req, store.tables[req.repo].catalog.Keys, faults.commitOk);
  }

  /** queryPackage: the packages whose full-text row matches transformQueryText(q), ordered and windowed. */
  method QueryPackage(store: StickerStore, ext: Externals, req: ListRequest, faults: DbFaults) returns (resp: Response)
    requires store.Valid() && req.q != ""
    ensures Listed(store.tables[req.repo], ext, req, faults, resp)
  {
    if !faults.beginOk {
      return InternalError;
    }
    var expr := TransformQueryText(ext.stem, req.q);
    if !faults.queryOk {
      return InternalError;
    }
    var p := store.tables[req.repo];
    var ids := MatchedIds(p, ext, expr) * p.catalog.Keys;
    resp := RespondWithPage(store, ext, req, ids, faults.commitOk);
  }

  /** pkgHandler as written: validate, then list or search; a negative or too large size panics. */
  method PkgHandler(form: Form, store: StickerStore, ext: Externals, faults: DbFaults) returns (resp: Response)
    requires store.Valid()
    ensures ParseListRequest(form).Rejected? ==> resp == Error(StatusBadRequest, ParseListRequest(form).message)
    ensures ParseListRequest(form).Accepted? ==>
              Listed(store.tables[ParseListRequest(form).req.repo], ext, ParseListRequest(form).req, faults, resp)
  {
    var checked := ParseListRequest(form);
    if checked.Rejected? {
      return Error(StatusBadRequest, checked.message);
    }
    if checked.req.q == "" {
      resp := ListPackage(store, ext, checked.req, faults);
    } else {
      resp := QueryPackage(store, ext, checked.req, faults);
    }
  }

  /**
   * A request with size=-1 passes every check of pkgHandler, and once the
   * transaction and query are under way the handler panics instead of
   * answering.
   */
  lemma NegativeSizeAborts(p: Partition, ext: Externals, resp: Response)
    requires Listed(p, ext, ListRequest(1, -1, Official, ByDate, ""), DbFaults(true, true, true), resp)
    ensures ParseListRequest(map["page" := "1", "size" := "-1", "repo" := "official", "order" := "date"])
            == Accepted(ListRequest(1, -1, Official, ByDate, ""))
    ensures resp == Aborted
  {
    ParseIntOfIntToString(1);
    ParseIntOfIntToString(-1);
    assert IntToString(1) == "1";
    assert IntToString(-1) == "-1";
    ParseRepoOfTableName(Official);
    var form := map["page" := "1", "size" := "-1", "repo" := "official", "order" := "date"];
    assert FormValue(form, "page") == "1" && FormValue(form, "size") == "-1";
    assert FormValue(form, "repo") == "official" && FormValue(form, "order") == "date";
    assert FormValue(form, "q") == "";
  }

  /**
   * A size above MaxSliceCap passes every check of pkgHandler too, and the
   * handler panics at make once the query is under way.
   */
  lemma OversizedSizeAborts(n: int, p: Partition, ext: Externals, resp: Response)
    requires MaxSliceCap < n <= MaxInt64
    requires Listed(p, ext, ListRequest(1, n, Official, ByDate, ""), DbFaults(true, true, true), resp)
    ensures ParseListRequest(map["page" := "1", "size" := IntToString(n), "repo" := "official", "order" := "date"])
            == Accepted(ListRequest(1, n, Official, ByDate, ""))
    ensures resp == Aborted
  {
    ParseIntOfIntToString(1);
    ParseIntOfIntToString(n);
    assert IntToString(1) == "1";
    ParseRepoOfTableName(Official);
    var form := map["page" := "1", "size" := IntToString(n), "repo" := "official", "order" := "date"];
    assert FormValue(form, "page") == "1" && FormValue(form, "size") == IntToString(n);
    assert FormValue(form, "repo") == "official" && FormValue(form, "order") == "date";
    assert FormValue(form, "q") == "";
  }

  /**
   * pkgHandler with the size check it lacks: a size make cannot allocate is
   * refused like any other malformed parameter, so every request is answered.
   */
  method PkgHandlerCheckingSize(form: Form, store: StickerStore, ext: Externals, faults: DbFaults) returns (resp: Response)
    requires store.Valid()
    ensures resp.Response?
    ensures ParseListRequest(form).Rejected? ==> resp == Error(StatusBadRequest, ParseListRequest(form).message)
    ensures ParseListRequest(form).Accepted? && ParseListRequest(form).req.size < 0 ==>
              resp == Error(StatusBadRequest, "parameter size must be a non-negative integer")
    ensures ParseListRequest(form).Accepted? && ParseListRequest(form).req.size > MaxSliceCap ==>
              resp == Error(StatusBadRequest, "parameter size too large")
    ensures ParseListRequest(form).Accepted? && SliceCapOk(ParseListRequest(form).req.size) ==>
              Listed(store.tables[ParseListRequest(form).req.repo], ext, ParseListRequest(form).req, faults, resp)
  {
    var checked := ParseListRequest(form);
    if checked.Accepted? && checked.req.size < 0 {
      return Error(StatusBadRequest, "parameter size must be a non-negative integer");
    }
    if checked.Accepted? && checked.req.size > MaxSliceCap {
      return Error(StatusBadRequest, "parameter size too large");
    }
    resp := PkgHandler(form, store, ext, faults);
  }

  /**
   * /pkg-count and /pkg-list agree: when the count is n, the first page of
   * any size at least n lists exactly those n packages.
   */
  lemma CountMatchesFirstPage(p: Partition, ext: Externals, req: ListRequest, resp: Response)
    requires req.page == 1 && |Selected(p, ext, req.q)| <= req.size <= MaxSliceCap
    requires Listed(p, ext, req, DbFaults(true, true, true), resp)
    ensures resp.Response? && resp.status == StatusOK
    ensures exists rows :: && Ordered(p.catalog, req.order, Selected(p, ext, req.q), rows)
                           && (forall k :: 0 <= k < |rows| ==> rows[k] in p.catalog)
                           && resp.body == JsonArray(Metas(p.catalog, rows))
  {
    var rows :| && Ordered(p.catalog, req.order, Selected(p, ext, req.q), rows)
                && (forall k :: 0 <= k < |rows| ==> rows[k] in p.catalog)
                && resp == Response(StatusOK, JsonArray(Metas(p.catalog, Window(rows, req.size, Offset(req.page, req.size)))));
    OffsetOfPage(1, req.size);
    assert Window(rows, req.size, 0) == rows;
  }
}
