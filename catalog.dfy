/**
 * The sticker database (main.go:80-116, insert.go, update_count.go): three
 * partitions, official, creator and custom, each a catalog table keyed by
 * packageId holding the raw metadata text and the insertion date, beside a
 * full-text table of (packageId, title text, author text) rows; and a summary
 * table holding one row count per partition.
 */
module Catalog {
  import opened Wrappers
  import opened Text
  import opened Sorting
  import opened Tokenizer
  import opened Metadata
  import opened Library
  import opened FileSystem

  datatype Repo = Official | Creator | Custom

  /** The table name of a partition, as the SQL text and the `repo` parameter spell it. */
  function TableName(repo: Repo): string
  {
    match repo
    case Official => "official"
    case Creator => "creator"
    case Custom => "custom"
  }

  /** checkRepo: the partition an id belongs to; None (the empty table name) for the one id no range covers. */
  function CheckRepo(id: int): (r: Option<Repo>)
    ensures r == Some(Custom) <==> id < 0
    ensures r == Some(Official) <==> 0 <= id < 999999
    ensures r == Some(Creator) <==> id >= 1000000
    ensures r.None? <==> id == 999999
  {
    if id < 0 then Some(Custom)
    else if id < 999999 then Some(Official)
    else if id >= 1000000 then Some(Creator)
    else None
  }

  /** The allow-list the handlers apply to the `repo` parameter. */
  function ParseRepo(s: string): (r: Option<Repo>)
    ensures r.Some? ==> TableName(r.value) == s
    ensures r.None? ==> forall repo: Repo :: TableName(repo) != s
  {
    if s == "official" then Some(Official)
    else if s == "creator" then Some(Creator)
    else if s == "custom" then Some(Custom)
    else None
  }

  /** Every table name is accepted, as that partition. */
  lemma ParseRepoOfTableName(repo: Repo)
    ensures ParseRepo(TableName(repo)) == Some(repo)
  {
  }

  datatype CatalogRow = CatalogRow(meta: string, date: int)
  datatype IndexRow = IndexRow(packageId: int, title: string, author: string)
  datatype Partition = Partition(catalog: map<int, CatalogRow>, index: seq<IndexRow>)

  const EmptyPartition := Partition(map[], [])

  /** The ids that have a full-text row. */
  function IndexIds(index: seq<IndexRow>): set<int>
  {
    set i | 0 <= i < |index| :: index[i].packageId
  }

  /** Every catalog row has exactly one full-text row and no full-text row is orphaned. */
  ghost predicate Consistent(p: Partition)
  {
    && IndexIds(p.index) == p.catalog.Keys
    && (forall i, j :: 0 <= i < j < |p.index| ==> p.index[i].packageId != p.index[j].packageId)
  }

  /** A partition after the two INSERT statements of one committed transaction. */
  function Added(p: Partition, id: int, row: CatalogRow, entry: IndexRow): Partition
  {
    Partition(p.catalog[id := row], p.index + [entry])
  }

  /** Adding an absent id with its own full-text row keeps the partition consistent. */
  lemma AddedKeepsConsistent(p: Partition, id: int, row: CatalogRow, entry: IndexRow)
    requires Consistent(p) && id !in p.catalog && entry.packageId == id
    ensures Consistent(Added(p, id, row, entry))
  {
    var q := Added(p, id, row, entry);
    forall x | x in IndexIds(q.index) ensures x in q.catalog {
      var i :| 0 <= i < |q.index| && q.index[i].packageId == x;
      if i < |p.index| {
        assert p.index[i].packageId in IndexIds(p.index);
      }
    }
    forall x | x in q.catalog ensures x in IndexIds(q.index) {
      if x == id {
        assert q.index[|p.index|].packageId == id;
      } else {
        assert x in IndexIds(p.index);
        var i :| 0 <= i < |p.index| && p.index[i].packageId == x;
        assert q.index[i].packageId == x;
      }
    }
    forall i, j | 0 <= i < j < |q.index| ensures q.index[i].packageId != q.index[j].packageId {
      if j == |p.index| {
        assert p.index[i].packageId in IndexIds(p.index);
      }
    }
  }

  /** The full-text row insert builds: the query normalisation of all title values and of all author values. */
  function IndexEntry(ext: Externals, id: int, meta: Meta): IndexRow
    requires ValidExternals(ext)
  {
    var titleKeys := ext.keyOrder(meta.title);
    var authorKeys := ext.keyOrder(meta.author);
    IndexRow(id,
             Normalize(ext.stem, Concatenation(meta.title, titleKeys)),
             Normalize(ext.stem, Concatenation(meta.author, authorKeys)))
  }

  /** Whether each statement of the insert transaction succeeds, for failures other than the primary key. */
  datatype TxFaults = TxFaults(beginOk: bool, execOk: bool, commitOk: bool)

  datatype InsertOutcome =
    | NoMetaFile     // productInfo.meta cannot be opened
    | BadMeta        // it does not decode as a Meta
    | BeginFailed    // stickerDB.Begin failed
    | NoRepository   // checkRepo returned ""
    | Duplicate      // the packageId is already in the partition: primary key violation, rolled back
    | ExecFailed     // the INSERT statements failed otherwise, rolled back
    | CommitFailed   // the commit failed
    | Inserted(repo: Repo)

  /** The name of the metadata file in a package directory. */
  const MetaFileName := "productInfo.meta"

  /** What insert does to the partitions, given the metadata file's text (None when it cannot be opened). */
  function InsertEffect(tables: map<Repo, Partition>, metaText: Option<string>, ext: Externals,
                        id: int, now: int, faults: TxFaults): (InsertOutcome, map<Repo, Partition>)
    requires ValidExternals(ext)
    requires Official in tables && Creator in tables && Custom in tables
  {
    if metaText.None? then (NoMetaFile, tables)
    else if ext.decodeMeta(metaText.value).None? then (BadMeta, tables)
    else if !faults.beginOk then (BeginFailed, tables)
    else if CheckRepo(id).None? then (NoRepository, tables)
    else
      var repo := CheckRepo(id).value;
      if id in tables[repo].catalog then (Duplicate, tables)
      else if !faults.execOk then (ExecFailed, tables)
      else if !faults.commitOk then (CommitFailed, tables)
      else
        var entry := IndexEntry(ext, id, ext.decodeMeta(metaText.value).value);
        (Inserted(repo), tables[repo := Added(tables[repo], id, CatalogRow(metaText.value, now), entry)])
  }

  /** insert succeeds exactly when every step does: a readable, decodable file, a transaction, a partition, a new id. */
  lemma InsertSucceedsIff(tables: map<Repo, Partition>, metaText: Option<string>, ext: Externals,
                          id: int, now: int, faults: TxFaults)
    requires ValidExternals(ext)
    requires Official in tables && Creator in tables && Custom in tables
    ensures var (outcome, _) := InsertEffect(tables, metaText, ext, id, now, faults);
            outcome.Inserted? <==>
              && metaText.Some? && ext.decodeMeta(metaText.value).Some?
              && faults.beginOk && id != 999999
              && id !in tables[CheckRepo(id).value].catalog
              && faults.execOk && faults.commitOk
  {
  }

  /**
   * All or nothing: a failed insert leaves every table as it was; a successful
   * one adds the id to its own partition only, with the file's raw text, the
   * date and its full-text row, and changes no existing row.
   */
  lemma InsertAllOrNothing(tables: map<Repo, Partition>, metaText: Option<string>, ext: Externals,
                           id: int, now: int, faults: TxFaults)
    requires ValidExternals(ext)
    requires Official in tables && Creator in tables && Custom in tables
    ensures var (outcome, after) := InsertEffect(tables, metaText, ext, id, now, faults);
            && after.Keys == tables.Keys
            && (!outcome.Inserted? ==> after == tables)
            && (outcome.Inserted? ==>
                  && outcome.repo == CheckRepo(id).value
                  && (forall r :: r in tables && r != outcome.repo ==> after[r] == tables[r])
                  && after[outcome.repo].catalog.Keys == tables[outcome.repo].catalog.Keys + {id}
                  && id !in tables[outcome.repo].catalog
                  && after[outcome.repo].catalog[id] == CatalogRow(metaText.value, now)
                  && after[outcome.repo].index == tables[outcome.repo].index + [IndexEntry(ext, id, ext.decodeMeta(metaText.value).value)])
  {
  }

  /** No insert changes a row that was already stored, in any partition. */
  lemma InsertNeverOverwrites(tables: map<Repo, Partition>, metaText: Option<string>, ext: Externals,
                              id: int, now: int, faults: TxFaults, r: Repo, k: int)
    requires ValidExternals(ext)
    requires Official in tables && Creator in tables && Custom in tables
    requires k in tables[r].catalog
    ensures var after := InsertEffect(tables, metaText, ext, id, now, faults).1;
            k in after[r].catalog && after[r].catalog[k] == tables[r].catalog[k]
  {
  }

  /** The id no partition covers is never stored. */
  lemma NoInsertFor999999(tables: map<Repo, Partition>, metaText: Option<string>, ext: Externals,
                          now: int, faults: TxFaults)
    requires ValidExternals(ext)
    requires Official in tables && Creator in tables && Custom in tables
    ensures InsertEffect(tables, metaText, ext, 999999, now, faults) == (if metaText.None? then NoMetaFile else if ext.decodeMeta(metaText.value).None? then BadMeta else if !faults.beginOk then BeginFailed else NoRepository, tables)
  {
  }

  /** Partitions that are all consistent stay so after an insert. */
  lemma InsertKeepsConsistent(tables: map<Repo, Partition>, metaText: Option<string>, ext: Externals,
                              id: int, now: int, faults: TxFaults)
    requires ValidExternals(ext)
    requires Official in tables && Creator in tables && Custom in tables
    requires forall r :: r in tables ==> Consistent(tables[r])
    ensures var after := InsertEffect(tables, metaText, ext, id, now, faults).1;
            forall r :: r in after ==> Consistent(after[r])
  {
    var (outcome, after) := InsertEffect(tables, metaText, ext, id, now, faults);
    if outcome.Inserted? {
      var repo := outcome.repo;
      AddedKeepsConsistent(tables[repo], id, CatalogRow(metaText.value, now),
                           IndexEntry(ext, id, ext.decodeMeta(metaText.value).value));
    }
  }

  /** A metadata record with single-entry title and author maps is indexed under the normalisation of those two values. */
  lemma IndexEntryOfSingleEntries(ext: Externals, id: int, meta: Meta, titleKey: string, title: string,
                                  authorKey: string, author: string)
    requires ValidExternals(ext)
    requires meta.title == map[titleKey := title] && meta.author == map[authorKey := author]
    ensures IndexEntry(ext, id, meta) == IndexRow(id, Normalize(ext.stem, title), Normalize(ext.stem, author))
  {
    ConcatenationOfSingleEntry(titleKey, title, ext.keyOrder(meta.title));
    ConcatenationOfSingleEntry(authorKey, author, ext.keyOrder(meta.author));
  }

  /** What the existence check of worker and the lookup of metaHandler read back. */
  datatype Lookup = Found(meta: string) | NoRows | QueryFailed

  /** Whether the COUNT(*) query and the UPDATE of the summary row succeed. */
  datatype CountFaults = CountFaults(countOk: bool, updateOk: bool)

  /** The summary after refreshing official, creator and custom in turn. */
  function Refreshed(summary: map<Repo, int>, tables: map<Repo, Partition>, faults: Repo -> CountFaults): map<Repo, int>
    requires Official in tables && Creator in tables && Custom in tables
  {
    var s1 := RefreshedOne(summary, tables, Official, faults(Official));
    var s2 := RefreshedOne(s1, tables, Creator, faults(Creator));
    RefreshedOne(s2, tables, Custom, faults(Custom))
  }

  /** UPDATE meta SET count WHERE name = repo: changes the row when there is one and adds none. */
  function RefreshedOne(summary: map<Repo, int>, tables: map<Repo, Partition>, repo: Repo, f: CountFaults): map<Repo, int>
    requires repo in tables
  {
    if f.countOk && f.updateOk && repo in summary then summary[repo := |tables[repo].catalog|] else summary
  }

  /**
   * After a refresh every partition whose two statements succeeded holds its
   * row count; the others keep their old count, and no summary row is added.
   */
  lemma RefreshedCounts(summary: map<Repo, int>, tables: map<Repo, Partition>, faults: Repo -> CountFaults, r: Repo)
    requires Official in tables && Creator in tables && Custom in tables
    requires r in summary
    ensures var after := Refreshed(summary, tables, faults);
            && after.Keys == summary.Keys
            && after[r] == if faults(r).countOk && faults(r).updateOk then |tables[r].catalog| else summary[r]
  {
  }

  /** The sort key of ORDER BY packageId and ORDER BY date. */
  datatype SortOrder = ByPackageId | ByDate

  /** The allow-list the listing handler applies to the `order` parameter. */
  function ParseOrder(s: string): (r: Option<SortOrder>)
    ensures r.Some? <==> s == "packageId" || s == "date"
    ensures r == Some(ByDate) <==> s == "date"
  {
    if s == "packageId" then Some(ByPackageId)
    else if s == "date" then Some(ByDate)
    else None
  }

  function SortKey(catalog: map<int, CatalogRow>, order: SortOrder, id: int): int
  {
    if order == ByPackageId || id !in catalog then id else catalog[id].date
  }

  /**
   * The row order of ORDER BY: by the key, and on equal dates by packageId.
   * SQLite leaves the order of equal dates unspecified. For `official` the
   * index on (date, packageId) makes this the order it uses; the date
   * indexes meant for `creator` and `custom` are created on `official`, so
   * for those two the tie-break is a choice of the model.
   */
  predicate RowBefore(catalog: map<int, CatalogRow>, order: SortOrder, a: int, b: int)
  {
    SortKey(catalog, order, a) < SortKey(catalog, order, b)
    || (SortKey(catalog, order, a) == SortKey(catalog, order, b) && a < b)
  }

  lemma RowBeforeIsStrictTotalOrder(catalog: map<int, CatalogRow>, order: SortOrder)
    ensures StrictTotalOrder((a, b) => RowBefore(catalog, order, a, b))
  {
  }

  /** The ids whose full-text row matches the expression: the join of the catalog with its full-text table. */
  function MatchedIds(p: Partition, ext: Externals, expr: string): set<int>
  {
    set i | 0 <= i < |p.index| && ext.matches(expr, p.index[i].packageId, p.index[i].title, p.index[i].author) :: p.index[i].packageId
  }

  /** Every matched id has a catalog row, so the join drops nothing and never counts more than the catalog holds. */
  lemma MatchedIdsInCatalog(p: Partition, ext: Externals, expr: string)
    requires Consistent(p)
    ensures MatchedIds(p, ext, expr) <= p.catalog.Keys
    ensures |MatchedIds(p, ext, expr)| <= |p.catalog|
  {
    forall x | x in MatchedIds(p, ext, expr) ensures x in p.catalog {
      var i :| 0 <= i < |p.index| && ext.matches(expr, p.index[i].packageId, p.index[i].title, p.index[i].author) && p.index[i].packageId == x;
      assert x in IndexIds(p.index);
    }
    assert |p.catalog.Keys| == |p.catalog|;
    SubsetCard(MatchedIds(p, ext, expr), p.catalog.Keys);
  }

  lemma {:induction false} SubsetCard(a: set<int>, b: set<int>)
    requires a <= b
    ensures |a| <= |b|
  {
    assert b == a + (b - a);
  }

  class StickerStore {
    var tables: map<Repo, Partition>
    var summary: map<Repo, int>

    ghost predicate Valid()
      reads this
    {
      && (forall r: Repo :: r in tables)
      && Consistent(tables[Official]) && Consistent(tables[Creator]) && Consistent(tables[Custom])
    }

    /** setupTable on a new database: three empty partitions and a zero count for each. */
    constructor ()
      ensures Valid()
      ensures tables == map[Official := EmptyPartition, Creator := EmptyPartition, Custom := EmptyPartition]
      ensures summary == map[Official := 0, Creator := 0, Custom := 0]
    {
      tables := map[Official := EmptyPartition, Creator := EmptyPartition, Custom := EmptyPartition];
      summary := map[Official := 0, Creator := 0, Custom := 0];
      new;
      assert IndexIds([]) == {};
      forall r: Repo ensures r in tables {
        assert r.Official? || r.Creator? || r.Custom?;
      }
    }

    /**
     * insert: read and decode productInfo.meta from the package's directory,
     * build the two search texts, then insert the catalog row and the
     * full-text row in one transaction.
     */
    method Insert(id: int, disk: Disk, ext: Externals, now: int, faults: TxFaults) returns (outcome: InsertOutcome)
      requires Valid() && ValidExternals(ext)
      modifies this
      ensures Valid() && summary == old(summary)
      ensures (outcome, tables) == InsertEffect(old(tables), disk.ReadFile(IntToString(id), MetaFileName), ext, id, now, faults)
    {
      var metaText := disk.ReadFile(IntToString(id), MetaFileName);
      if metaText.None? {
        return NoMetaFile;
      }
      var decoded := ext.decodeMeta(metaText.value);
      if decoded.None? {
        return BadMeta;
      }
      var meta := decoded.value;
      var authorBuffer := ConcatValues(meta.author, ext.keyOrder(meta.author));
      var titleBuffer := ConcatValues(meta.title, ext.keyOrder(meta.title));
      var authorText := TransformQueryText(ext.stem, authorBuffer);
      var titleText := TransformQueryText(ext.stem, titleBuffer);
      if !faults.beginOk {
        return BeginFailed;
      }
      var repo := CheckRepo(id);
      if repo.None? {
        return NoRepository;
      }
      var r := repo.value;
      if id in tables[r].catalog {
        return Duplicate;
      }
      if !faults.execOk {
        return ExecFailed;
      }
      if !faults.commitOk {
        return CommitFailed;
      }
      var entry := IndexRow(id, titleText, authorText);
      assert entry == IndexEntry(ext, id, meta);
      AddedKeepsConsistent(tables[r], id, CatalogRow(metaText.value, now), entry);
      tables := tables[r := Added(tables[r], id, CatalogRow(metaText.value, now), entry)];
      outcome := Inserted(r);
    }

    /**
     * The existence check of worker and the lookup of metaHandler: SELECT ...
     * WHERE packageId = id in the partition's table. With no partition the
     * statement names no table and fails.
     */
    function Lookup(repo: Option<Repo>, id: int, queryOk: bool): (r: Lookup)
      reads this
      requires Valid()
      ensures r.Found? <==> queryOk && repo.Some? && id in tables[repo.value].catalog
      ensures r.Found? ==> r.meta == tables[repo.value].catalog[id].meta
      ensures r == NoRows <==> queryOk && repo.Some? && id !in tables[repo.value].catalog
    {
      if repo.None? || !queryOk then QueryFailed
      else if id in tables[repo.value].catalog then Found(tables[repo.value].catalog[id].meta)
      else NoRows
    }

    /** updateRepoCount: set the partition's summary entry to its row count; on any failure write nothing. */
    method UpdateRepoCount(repo: Repo, faults: CountFaults)
      requires Valid()
      modifies this
      ensures Valid() && tables == old(tables)
      ensures summary == RefreshedOne(old(summary), tables, repo, faults)
    {
      if !faults.countOk {
        return;
      }
      var count := |tables[repo].catalog|;
      if faults.updateOk && repo in summary {
        summary := summary[repo := count];
      }
    }

    /** UpdateAllCount: refresh official, then creator, then custom. */
    method UpdateAllCount(faults: Repo -> CountFaults)
      requires Valid()
      modifies this
      ensures Valid() && tables == old(tables)
      ensures summary == Refreshed(old(summary), tables, faults)
    {
      UpdateRepoCount(Official, faults(Official));
      UpdateRepoCount(Creator, faults(Creator));
      UpdateRepoCount(Custom, faults(Custom));
    }

    /** The ids of `ids` in ORDER BY order: what the listing queries iterate over. */
    method OrderedIds(repo: Repo, order: SortOrder, ids: set<int>) returns (rows: seq<int>)
      requires Valid()
      ensures |rows| == |ids|
      ensures forall x :: x in rows <==> x in ids
      ensures forall i, j :: 0 <= i < j < |rows| ==> RowBefore(tables[repo].catalog, order, rows[i], rows[j])
    {
      var catalog := tables[repo].catalog;
      RowBeforeIsStrictTotalOrder(catalog, order);
      rows := SortSet(ids, (a, b) => RowBefore(catalog, order, a, b));
    }
  }
}
