/**
 * The ingestion pipeline of update.go: for each package id, check whether the
 * store already has it, and if not download the package archive (retrying
 * transport errors), unpack it into the package directory converting images
 * and reshaping the metadata, and insert the package. The worker pool is
 * modelled as one sequential loop; HTTP and the clock are oracles passed in.
 */
module Ingest {
  import opened Wrappers
  import opened Text
  import opened Metadata
  import opened Library
  import opened FileSystem
  import opened Catalog

  datatype ZipEntry = ZipEntry(name: string, contents: string)

  /** An HTTP response; its archive is None when the body cannot be saved and opened as a zip file. */
  datatype Reply = Reply(status: int, archive: Option<seq<ZipEntry>>)

  /** What one http.Get returns. */
  datatype Attempt = TransportError | Replied(reply: Reply)

  /** One initial request and up to five retries. */
  const MaxAttempts: nat := 6

  /** The reply of the first attempt from the k-th on that gets one, within the attempt budget. */
  function FirstReply(fetch: nat -> Attempt, k: nat): Option<Reply>
    decreases MaxAttempts - k
  {
    if k >= MaxAttempts then None
    else if fetch(k).Replied? then Some(fetch(k).reply)
    else FirstReply(fetch, k + 1)
  }

  /** Download fails exactly when all six attempts fail; otherwise it returns the earliest reply. */
  lemma {:induction false} FirstReplyIsEarliest(fetch: nat -> Attempt, k: nat)
    requires k <= MaxAttempts
    ensures FirstReply(fetch, k).None? <==> forall j :: k <= j < MaxAttempts ==> fetch(j).TransportError?
    ensures FirstReply(fetch, k).Some? ==>
              exists j :: k <= j < MaxAttempts && fetch(j) == Replied(FirstReply(fetch, k).value)
                          && forall i :: k <= i < j ==> fetch(i).TransportError?
    decreases MaxAttempts - k
  {
    if k < MaxAttempts && fetch(k).TransportError? {
      FirstReplyIsEarliest(fetch, k + 1);
      if FirstReply(fetch, k).Some? {
        var j :| k + 1 <= j < MaxAttempts && fetch(j) == Replied(FirstReply(fetch, k + 1).value)
                 && forall i :: k + 1 <= i < j ==> fetch(i).TransportError?;
        assert forall i :: k <= i < j ==> fetch(i).TransportError?;
      }
    }
  }

  /** Five transport errors followed by a reply is a successful download of that reply. */
  lemma SixthAttemptSucceeds(fetch: nat -> Attempt)
    requires forall j :: 0 <= j < 5 ==> fetch(j).TransportError?
    requires fetch(5).Replied?
    ensures FirstReply(fetch, 0) == Some(fetch(5).reply)
  {
    assert FirstReply(fetch, 5) == Some(fetch(5).reply);
    assert FirstReply(fetch, 4) == FirstReply(fetch, 5);
    assert FirstReply(fetch, 3) == FirstReply(fetch, 4);
    assert FirstReply(fetch, 2) == FirstReply(fetch, 3);
    assert FirstReply(fetch, 1) == FirstReply(fetch, 2);
  }

  /**
   * download: one request, then while it failed and fewer than five retries
   * were made, retry. Returns the reply and the number of requests made.
   */
  method Download(fetch: nat -> Attempt) returns (res: Option<Reply>, attempts: nat)
    ensures 1 <= attempts <= MaxAttempts
    ensures res == FirstReply(fetch, 0)
    ensures res.Some? ==> fetch(attempts - 1) == Replied(res.value)
    ensures res.None? ==> attempts == MaxAttempts
    ensures forall j :: 0 <= j < attempts - 1 ==> fetch(j).TransportError?
  {
    var attempt := fetch(0);
    attempts := 1;
    if attempt.TransportError? {
      var retry := 0;
      while retry < 5 && attempt.TransportError?
        invariant 0 <= retry <= 5
        invariant attempts == retry + 1
        invariant attempt == fetch(retry)
        invariant forall j :: 0 <= j < retry ==> fetch(j).TransportError?
        invariant FirstReply(fetch, 0) == FirstReply(fetch, retry)
      {
        retry := retry + 1;
        attempt := fetch(retry);
        attempts := attempts + 1;
      }
    }
    res := if attempt.Replied? then Some(attempt.reply) else None;
  }

  /**
   * How unzip handles one archive entry: a name containing ".png" is an image,
   * converted to JPEG and stored with every "png" in its name replaced by
   * "jpg"; any other entry is the metadata, reshaped and stored under its own
   * name. None when the conversion or the decoding fails.
   */
  function Converted(e: ZipEntry, ext: Externals): Option<(string, string)>
  {
    if Contains(e.name, ".png") then
      var jpeg := ext.pngToJpeg(e.contents);
      if jpeg.None? then None else Some((ReplaceAll(e.name, "png", "jpg"), jpeg.value))
    else
      var om := ext.decodeOriginal(e.contents);
      if om.None? then None else Some((e.name, ext.encodeMeta(Reshaped(om.value))))
  }

  /** An image entry is stored under a name that carries ".jpg" where the entry's carried ".png". */
  lemma ConvertedImageName(e: ZipEntry, ext: Externals)
    requires Contains(e.name, ".png") && Converted(e, ext).Some?
    ensures Contains(Converted(e, ext).value.0, ".jpg")
  {
    assert ".png" == ['.'] + "png" && ".jpg" == ['.'] + "jpg";
    ReplaceAllAfterChar(e.name, '.', "png", "jpg");
  }

  /**
   * Whether unzip can write an entry: it converts, and its target name is a
   * file of the package directory itself, since os.Create makes no
   * sub-directory.
   */
  predicate Writable(e: ZipEntry, ext: Externals)
  {
    Converted(e, ext).Some? && FlatName(Converted(e, ext).value.0)
  }

  /**
   * An entry is written exactly when its name has no '/' and its contents
   * decode: as a PNG image when the name contains ".png", as metadata otherwise.
   */
  lemma WritableIff(e: ZipEntry, ext: Externals)
    ensures Writable(e, ext) <==>
              && '/' !in e.name
              && if Contains(e.name, ".png") then ext.pngToJpeg(e.contents).Some?
                 else ext.decodeOriginal(e.contents).Some?
  {
    if Contains(e.name, ".png") && ext.pngToJpeg(e.contents).Some? {
      var target := ReplaceAll(e.name, "png", "jpg");
      if '/' in e.name {
        ReplaceAllKeepsOthers(e.name, "png", "jpg", '/');
      }
      if '/' in target {
        ReplaceAllAddsOnlyRep(e.name, "png", "jpg", '/');
      }
    }
  }

  /** The package directory after writing the entries in order, stopping at the first that fails; and whether none failed. */
  function Unpacked(files: Directory, entries: seq<ZipEntry>, ext: Externals): (Directory, bool)
    decreases |entries|
  {
    if entries == [] then (files, true)
    else if !Writable(entries[0], ext) then (files, false)
    else
      var c := Converted(entries[0], ext).value;
      Unpacked(files[c.0 := c.1], entries[1..], ext)
  }

  /** Unpacking from the i-th entry on: the i-th entry is written, or ends the unpacking. */
  lemma UnpackedAt(files: Directory, entries: seq<ZipEntry>, i: nat, ext: Externals)
    requires i < |entries|
    ensures Unpacked(files, entries[i..], ext)
            == if !Writable(entries[i], ext) then (files, false)
               else Unpacked(files[Converted(entries[i], ext).value.0 := Converted(entries[i], ext).value.1], entries[i + 1..], ext)
  {
    assert entries[i..][0] == entries[i] && entries[i..][1..] == entries[i + 1..];
  }

  /** Unpacking succeeds exactly when every entry can be written. */
  lemma {:induction false} UnpackedOkIff(files: Directory, entries: seq<ZipEntry>, ext: Externals)
    ensures Unpacked(files, entries, ext).1 <==> forall i :: 0 <= i < |entries| ==> Writable(entries[i], ext)
    decreases |entries|
  {
    if entries != [] {
      var c := Converted(entries[0], ext);
      if Writable(entries[0], ext) {
        UnpackedOkIff(files[c.value.0 := c.value.1], entries[1..], ext);
        assert forall i :: 1 <= i < |entries| ==> entries[i] == entries[1..][i - 1];
      }
    }
  }

  /**
   * Unpacking only adds or replaces files: every file it did not write keeps
   * its contents, and after a successful unpacking every entry's target name
   * is present.
   */
  lemma {:induction false} UnpackedWrites(files: Directory, entries: seq<ZipEntry>, ext: Externals, n: string)
    ensures var (after, ok) := Unpacked(files, entries, ext);
            && files.Keys <= after.Keys
            && ((forall i :: 0 <= i < |entries| && Writable(entries[i], ext) ==> Converted(entries[i], ext).value.0 != n)
                  ==> (n in after <==> n in files) && (n in files ==> after[n] == files[n]))
            && (ok ==> forall i :: 0 <= i < |entries| ==> Writable(entries[i], ext) && Converted(entries[i], ext).value.0 in after)
    decreases |entries|
  {
    UnpackedOkIff(files, entries, ext);
    if entries != [] {
      var c := Converted(entries[0], ext);
      if Writable(entries[0], ext) {
        var next := files[c.value.0 := c.value.1];
        UnpackedWrites(next, entries[1..], ext, n);
        UnpackedWrites(next, entries[1..], ext, c.value.0);
        UnpackedOkIff(next, entries[1..], ext);
        forall i | 1 <= i < |entries| ensures entries[i] == entries[1..][i - 1] { }
      }
    }
  }

  /**
   * unzip: create the package directory, then convert and write the entries
   * in archive order; the first entry that fails to convert or to be written
   * ends the loop, leaving the files written so far in place.
   */
  method Unzip(id: int, reply: Reply, disk: Disk, ext: Externals) returns (ok: bool)
    modifies disk
    ensures reply.archive.None? ==> !ok && disk.dirs == old(disk.dirs)
    ensures reply.archive.Some? ==>
              var dir := IntToString(id);
              var before := if dir in old(disk.dirs) then old(disk.dirs)[dir] else map[];
              var unpacked := Unpacked(before, reply.archive.value, ext);
              ok == unpacked.1 && disk.dirs == old(disk.dirs)[dir := unpacked.0]
  {
    if reply.archive.None? {
      return false;
    }
    var entries := reply.archive.value;
    var dir := IntToString(id);
    disk.MkdirAll(dir);
    ghost var before := if dir in old(disk.dirs) then old(disk.dirs)[dir] else map[];
    var i := 0;
    while i < |entries|
      invariant 0 <= i <= |entries|
      invariant dir in disk.dirs
      invariant disk.dirs == old(disk.dirs)[dir := disk.dirs[dir]]
      invariant Unpacked(before, entries, ext) == Unpacked(disk.dirs[dir], entries[i..], ext)
    {
      var e := entries[i];
      var name: string;
      var contents: Option<string>;
      if Contains(e.name, ".png") {
        contents := ext.pngToJpeg(e.contents);
        name := ReplaceAll(e.name, "png", "jpg");
      } else {
        contents := ChangeMeta(ext.decodeOriginal, ext.encodeMeta, e.contents);
        name := e.name;
      }
      UnpackedAt(disk.dirs[dir], entries, i, ext);
      if contents.None? {
        return false;
      }
      ghost var d := disk.dirs[dir];
      var written := disk.WriteFile(dir, name, contents.value);
      if !written {
        return false;
      }
      Overwritten(old(disk.dirs), dir, d, disk.dirs[dir]);
      i := i + 1;
    }
    ok := true;
  }

  /** How far downlodAndInsert got with one package. */
  datatype Stage =
    | DownloadFailed                 // all attempts failed
    | NotFound(status: int)          // the store answered with an HTTP error status
    | UnzipFailed                    // the archive or one of its entries could not be processed
    | Stored(outcome: InsertOutcome) // insert ran, with this outcome

  /** The clock and the database faults insert meets. */
  datatype Environment = Environment(now: int, faults: TxFaults)

  /**
   * What unzip does to the disk: nothing without an archive; otherwise the
   * package directory (created when absent) after writing the entries, and
   * whether every entry was written.
   */
  function Unzipped(dirs: map<string, Directory>, id: int, reply: Reply, ext: Externals): (map<string, Directory>, bool)
  {
    if reply.archive.None? then (dirs, false)
    else
      var dir := IntToString(id);
      var (after, done) := Unpacked(if dir in dirs then dirs[dir] else map[], reply.archive.value, ext);
      (dirs[dir := after], done)
  }

  /** A reply whose archive opens and whose every entry can be written. */
  predicate ArchiveOk(reply: Reply, ext: Externals)
  {
    reply.archive.Some? && forall i :: 0 <= i < |reply.archive.value| ==> Writable(reply.archive.value[i], ext)
  }

  /** Unzip succeeds exactly on an archive that opens and whose every entry can be written, whatever the disk holds. */
  lemma UnzippedOkIff(dirs: map<string, Directory>, id: int, reply: Reply, ext: Externals)
    ensures Unzipped(dirs, id, reply, ext).1 <==> ArchiveOk(reply, ext)
  {
    if reply.archive.Some? {
      var dir := IntToString(id);
      UnpackedOkIff(if dir in dirs then dirs[dir] else map[], reply.archive.value, ext);
    }
  }

  /** The directories downlodAndInsert leaves: unzip's effect when a reply below 400 came, and no change otherwise. */
  function IngestedDirs(dirs: map<string, Directory>, id: int, reply: Option<Reply>, ext: Externals): map<string, Directory>
  {
    if reply.None? || reply.value.status >= 400 then dirs else Unzipped(dirs, id, reply.value, ext).0
  }

  /** Only the package's own directory changes, and it changes only when a reply below 400 came. */
  lemma IngestedDirsElsewhere(dirs: map<string, Directory>, id: int, reply: Option<Reply>, ext: Externals, n: string)
    requires n != IntToString(id) || reply.None? || reply.value.status >= 400 || reply.value.archive.None?
    ensures var after := IngestedDirs(dirs, id, reply, ext);
            (n in after <==> n in dirs) && (n in dirs ==> after[n] == dirs[n])
  {
  }

  /**
   * The stage downlodAndInsert reaches and the directories it leaves: the
   * first reply decides between DownloadFailed, NotFound and unzipping, and
   * unzip's success between UnzipFailed and Stored. The directories change
   * only by unzip, which runs exactly when a reply below 400 came.
   */
  ghost predicate Ingested(id: int, fetch: nat -> Attempt, ext: Externals, before: map<string, Directory>,
                           stage: Stage, after: map<string, Directory>)
  {
    var reply := FirstReply(fetch, 0);
    && (stage == DownloadFailed <==> reply.None?)
    && (stage.NotFound? <==> reply.Some? && reply.value.status >= 400)
    && (stage.NotFound? ==> stage.status == reply.value.status)
    && (stage == UnzipFailed <==> reply.Some? && reply.value.status < 400 && !Unzipped(before, id, reply.value, ext).1)
    && (stage.Stored? <==> reply.Some? && reply.value.status < 400 && Unzipped(before, id, reply.value, ext).1)
    && after == IngestedDirs(before, id, reply, ext)
  }

  /** downlodAndInsert: download, stop on a status of 400 or more, unzip, and insert only after all of these succeeded. */
  method DownloadAndInsert(id: int, fetch: nat -> Attempt, disk: Disk, store: StickerStore, ext: Externals, env: Environment)
    returns (stage: Stage)
    requires store.Valid() && ValidExternals(ext)
    modifies disk, store
    ensures store.Valid() && store.summary == old(store.summary)
    ensures Ingested(id, fetch, ext, old(disk.dirs), stage, disk.dirs)
    ensures !stage.Stored? ==> store.tables == old(store.tables)
    ensures stage.Stored? ==>
              (stage.outcome, store.tables)
              == InsertEffect(old(store.tables), disk.ReadFile(IntToString(id), MetaFileName), ext, id, env.now, env.faults)
  {
    var res, _ := Download(fetch);
    if res.None? {
      return DownloadFailed;
    }
    if res.value.status >= 400 {
      return NotFound(res.value.status);
    }
    var ok := Unzip(id, res.value, disk, ext);
    if !ok {
      return UnzipFailed;
    }
    var outcome := store.Insert(id, disk, ext, env.now, env.faults);
    stage := Stored(outcome);
  }

  /** What worker did with one id. */
  datatype WorkerOutcome =
    | Skipped             // the package is already stored
    | LookupFailed        // the existence check failed, only logged
    | Attempted(stage: Stage)

  /** The external world as seen by the ingestion of one id. */
  datatype World = World(
    fetch: int -> nat -> Attempt,
    lookupOk: int -> bool,
    env: int -> Environment)

  /**
   * What worker reports for an id, in terms of the tables and directories
   * before the whole run: Skipped exactly for a stored id, LookupFailed
   * exactly when the existence query fails or no partition covers the id, and
   * otherwise an attempt whose stage the first reply and the archive decide;
   * a Stored attempt carries the outcome of inserting the metadata file that
   * unzipping the reply leaves in the package directory.
   */
  ghost predicate Reported(tables: map<Repo, Partition>, dirs: map<string, Directory>, world: World, ext: Externals,
                           id: int, outcome: WorkerOutcome)
    requires ValidExternals(ext)
    requires Official in tables && Creator in tables && Custom in tables
  {
    var repo := CheckRepo(id);
    var stored := repo.Some? && repo.value in tables && id in tables[repo.value].catalog;
    var reply := FirstReply(world.fetch(id), 0);
    && (outcome == Skipped <==> world.lookupOk(id) && stored)
    && (outcome == LookupFailed <==> !world.lookupOk(id) || repo.None?)
    && (outcome.Attempted? <==> world.lookupOk(id) && repo.Some? && !stored)
    && (outcome.Attempted? ==>
          && (outcome.stage == DownloadFailed <==> reply.None?)
          && (outcome.stage.NotFound? <==> reply.Some? && reply.value.status >= 400)
          && (outcome.stage == UnzipFailed <==> reply.Some? && reply.value.status < 400 && !ArchiveOk(reply.value, ext))
          && (outcome.stage.Stored? <==> reply.Some? && reply.value.status < 400 && ArchiveOk(reply.value, ext))
          && (outcome.stage.Stored? ==>
                outcome.stage.outcome
                == InsertEffect(tables, FileIn(Unzipped(dirs, id, reply.value, ext).0, IntToString(id), MetaFileName),
                                ext, id, world.env(id).now, world.env(id).faults).0))
  }

  /** The outcome of a worker whose insert stored its package in partition r. */
  predicate InsertedInto(outcome: WorkerOutcome, r: Repo)
  {
    outcome.Attempted? && outcome.stage.Stored? && outcome.stage.outcome == Inserted(r)
  }

  /** worker, for one id: look the id up in its partition; download and insert only when there is no such row. */
  method Worker(id: int, world: World, disk: Disk, store: StickerStore, ext: Externals) returns (outcome: WorkerOutcome)
    requires store.Valid() && ValidExternals(ext)
    modifies disk, store
    ensures store.Valid() && store.summary == old(store.summary)
    ensures var found := old(store.Lookup(CheckRepo(id), id, world.lookupOk(id)));
            && (outcome == Skipped <==> found.Found?)
            && (outcome == LookupFailed <==> found == QueryFailed)
            && (outcome.Attempted? <==> found == NoRows)
    ensures !outcome.Attempted? ==> disk.dirs == old(disk.dirs) && store.tables == old(store.tables)
    ensures outcome.Attempted? ==> Ingested(id, world.fetch(id), ext, old(disk.dirs), outcome.stage, disk.dirs)
    ensures Reported(old(store.tables), old(disk.dirs), world, ext, id, outcome)
    ensures outcome.Attempted? && outcome.stage.Stored? ==>
              (outcome.stage.outcome, store.tables)
              == InsertEffect(old(store.tables), disk.ReadFile(IntToString(id), MetaFileName), ext, id,
                              world.env(id).now, world.env(id).faults)
    ensures !(outcome.Attempted? && outcome.stage.Stored?) ==> store.tables == old(store.tables)
    ensures Extends(old(store.tables), store.tables)
    ensures forall r: Repo :: InsertedInto(outcome, r) ==> id in store.tables[r].catalog
    ensures forall r: Repo, k :: k in store.tables[r].catalog && k !in old(store.tables)[r].catalog ==>
              k == id && InsertedInto(outcome, r)
  {
    var found := store.Lookup(CheckRepo(id), id, world.lookupOk(id));
    if found.Found? {
      return Skipped;
    }
    if found == QueryFailed {
      return LookupFailed;
    }
    ghost var reply := FirstReply(world.fetch(id), 0);
    if reply.Some? {
      UnzippedOkIff(disk.dirs, id, reply.value, ext);
    }
    var stage := DownloadAndInsert(id, world.fetch(id), disk, store, ext, world.env(id));
    outcome := Attempted(stage);
    if stage.Stored? {
      InsertEffectExtends(old(store.tables), disk.ReadFile(IntToString(id), MetaFileName), ext, id,
                          world.env(id).now, world.env(id).faults);
    }
  }

  /** Both sets of tables have every partition, and hold `id` in the same ones. */
  ghost predicate SameRowsFor(tables: map<Repo, Partition>, tables': map<Repo, Partition>, id: int)
  {
    forall r: Repo :: r in tables && r in tables' && (id in tables[r].catalog <==> id in tables'[r].catalog)
  }

  /** The directory `dir` is missing from both, or present in both with the same files. */
  ghost predicate SameDirectory(dirs: map<string, Directory>, dirs': map<string, Directory>, dir: string)
  {
    (dir in dirs <==> dir in dirs') && (dir in dirs ==> dirs[dir] == dirs'[dir])
  }

  /**
   * What is reported for an id depends on the tables only through whether
   * they hold that id, and on the directories only through the id's own.
   */
  lemma ReportedDependsOnIdOnly(tables: map<Repo, Partition>, tables': map<Repo, Partition>,
                                dirs: map<string, Directory>, dirs': map<string, Directory>,
                                world: World, ext: Externals, id: int, outcome: WorkerOutcome)
    requires ValidExternals(ext)
    requires SameRowsFor(tables, tables', id) && SameDirectory(dirs, dirs', IntToString(id))
    requires Reported(tables, dirs, world, ext, id, outcome)
    ensures Reported(tables', dirs', world, ext, id, outcome)
  {
    var reply := FirstReply(world.fetch(id), 0);
    if outcome.Attempted? && outcome.stage.Stored? {
      var dir := IntToString(id);
      UnzippedDependsOnOwnDir(dirs, dirs', id, reply.value, ext, MetaFileName);
      var text := FileIn(Unzipped(dirs, id, reply.value, ext).0, dir, MetaFileName);
      InsertOutcomeDependsOnIdOnly(tables, tables', text, ext, id, world.env(id).now, world.env(id).faults);
    }
  }

  /** A file unzip leaves in a package's directory depends on the directories only through that one. */
  lemma UnzippedDependsOnOwnDir(dirs: map<string, Directory>, dirs': map<string, Directory>, id: int, reply: Reply,
                                ext: Externals, name: string)
    requires SameDirectory(dirs, dirs', IntToString(id))
    ensures FileIn(Unzipped(dirs, id, reply, ext).0, IntToString(id), name)
            == FileIn(Unzipped(dirs', id, reply, ext).0, IntToString(id), name)
  {
  }

  /** Insert's outcome depends on the tables only through whether they hold the id. */
  lemma InsertOutcomeDependsOnIdOnly(tables: map<Repo, Partition>, tables': map<Repo, Partition>,
                                     metaText: Option<string>, ext: Externals, id: int, now: int, faults: TxFaults)
    requires ValidExternals(ext)
    requires SameRowsFor(tables, tables', id)
    ensures InsertEffect(tables, metaText, ext, id, now, faults).0 == InsertEffect(tables', metaText, ext, id, now, faults).0
  {
    assert Official in tables && Official in tables';
  }

  /** Every row stored in `before` is still stored, unchanged, in `after`. */
  ghost predicate Extends(before: map<Repo, Partition>, after: map<Repo, Partition>)
  {
    forall r, k :: r in before && k in before[r].catalog ==>
      r in after && k in after[r].catalog && after[r].catalog[k] == before[r].catalog[k]
  }

  /**
   * The packages the logged workers, one per id from `begin` on, stored: every
   * package a worker reports inserted into a partition is in it, and every
   * package a partition gained is one of those.
   */
  ghost predicate InsertsOf(before: map<Repo, Partition>, after: map<Repo, Partition>, begin: int,
                            log: seq<(int, WorkerOutcome)>)
  {
    && (forall i, r: Repo :: 0 <= i < |log| && InsertedInto(log[i].1, r) ==> r in after && begin + i in after[r].catalog)
    && (forall r: Repo, k :: r in before && r in after && k in after[r].catalog && k !in before[r].catalog ==>
          begin <= k < begin + |log| && InsertedInto(log[k - begin].1, r))
  }

  /**
   * Logging one more worker, for the next id, keeps InsertsOf; and since no
   * earlier worker stored that id, the worker sees it stored exactly when it
   * was stored before the run.
   */
  lemma InsertsOfStep(tables0: map<Repo, Partition>, tables: map<Repo, Partition>, tables': map<Repo, Partition>,
                      begin: int, log: seq<(int, WorkerOutcome)>, outcome: WorkerOutcome)
    requires forall r: Repo :: r in tables0 && r in tables && r in tables'
    requires InsertsOf(tables0, tables, begin, log) && Extends(tables0, tables) && Extends(tables, tables')
    requires forall r: Repo :: InsertedInto(outcome, r) ==> begin + |log| in tables'[r].catalog
    requires forall r: Repo, k :: k in tables'[r].catalog && k !in tables[r].catalog ==>
               k == begin + |log| && InsertedInto(outcome, r)
    ensures InsertsOf(tables0, tables', begin, log + [(begin + |log|, outcome)]) && Extends(tables0, tables')
    ensures SameRowsFor(tables, tables0, begin + |log|)
  {
    var log' := log + [(begin + |log|, outcome)];
    forall i, r: Repo | 0 <= i < |log'| && InsertedInto(log'[i].1, r) ensures begin + i in tables'[r].catalog {
      if i < |log| {
        assert log'[i] == log[i];
      }
    }
    forall r: Repo, k | k in tables'[r].catalog && k !in tables0[r].catalog
      ensures begin <= k < begin + |log'| && InsertedInto(log'[k - begin].1, r)
    {
      if k in tables[r].catalog {
        assert log'[k - begin] == log[k - begin];
      }
    }
  }

  lemma InsertEffectExtends(tables: map<Repo, Partition>, metaText: Option<string>, ext: Externals,
                            id: int, now: int, faults: TxFaults)
    requires ValidExternals(ext)
    requires Official in tables && Creator in tables && Custom in tables
    ensures Extends(tables, InsertEffect(tables, metaText, ext, id, now, faults).1)
    ensures var (outcome, after) := InsertEffect(tables, metaText, ext, id, now, faults);
            && (forall r: Repo :: r in after)
            && (outcome.Inserted? ==> id in after[outcome.repo].catalog)
            && (forall r: Repo, k :: k in after[r].catalog && k !in tables[r].catalog ==>
                  k == id && outcome == Inserted(r))
  {
    InsertAllOrNothing(tables, metaText, ext, id, now, faults);
    var (outcome, after) := InsertEffect(tables, metaText, ext, id, now, faults);
    forall r: Repo ensures r in after && (outcome != Inserted(r) ==> after[r] == tables[r]) {
      assert r in tables by { assert r == Official || r == Creator || r == Custom; }
    }
    forall r, k | r in tables && k in tables[r].catalog
      ensures var after := InsertEffect(tables, metaText, ext, id, now, faults).1;
              r in after && k in after[r].catalog && after[r].catalog[k] == tables[r].catalog[k]
    {
      InsertNeverOverwrites(tables, metaText, ext, id, now, faults, r, k);
      InsertAllOrNothing(tables, metaText, ext, id, now, faults);
    }
  }

  /** Whether a logged worker ran unzip: it attempted the id and got a reply below 400. */
  predicate Unzipping(world: World, entry: (int, WorkerOutcome))
  {
    var reply := FirstReply(world.fetch(entry.0), 0);
    entry.1.Attempted? && reply.Some? && reply.value.status < 400
  }

  /** The directories after the logged workers, in order: each attempt leaves what downlodAndInsert leaves. */
  function Unzips(dirs: map<string, Directory>, world: World, ext: Externals, log: seq<(int, WorkerOutcome)>)
    : map<string, Directory>
    decreases |log|
  {
    if log == [] then dirs
    else
      var last := log[|log| - 1];
      var prior := Unzips(dirs, world, ext, log[..|log| - 1]);
      if last.1.Attempted? then IngestedDirs(prior, last.0, FirstReply(world.fetch(last.0), 0), ext) else prior
  }

  /** One more logged worker adds its own effect on the directories. */
  lemma UnzipsSnoc(dirs: map<string, Directory>, world: World, ext: Externals, log: seq<(int, WorkerOutcome)>,
                   entry: (int, WorkerOutcome), after: map<string, Directory>)
    requires entry.1.Attempted? ==> after == IngestedDirs(Unzips(dirs, world, ext, log), entry.0, FirstReply(world.fetch(entry.0), 0), ext)
    requires !entry.1.Attempted? ==> after == Unzips(dirs, world, ext, log)
    ensures after == Unzips(dirs, world, ext, log + [entry])
  {
    assert (log + [entry])[..|log|] == log;
  }

  /** A directory that no logged worker unzipped into is left as it was. */
  lemma {:induction false} UnzipsElsewhere(dirs: map<string, Directory>, world: World, ext: Externals,
                                           log: seq<(int, WorkerOutcome)>, n: string)
    requires forall i :: 0 <= i < |log| && Unzipping(world, log[i]) ==> n != IntToString(log[i].0)
    ensures var after := Unzips(dirs, world, ext, log);
            (n in after <==> n in dirs) && (n in dirs ==> after[n] == dirs[n])
    decreases |log|
  {
    if log != [] {
      var last := log[|log| - 1];
      var init := log[..|log| - 1];
      forall i | 0 <= i < |init| && Unzipping(world, init[i]) ensures n != IntToString(init[i].0) {
        assert init[i] == log[i];
      }
      UnzipsElsewhere(dirs, world, ext, init, n);
      if last.1.Attempted? {
        IngestedDirsElsewhere(Unzips(dirs, world, ext, init), last.0, FirstReply(world.fetch(last.0), 0), ext, n);
      }
    }
  }

  /**
   * When the logged workers handled distinct ids, the directory of an id whose
   * worker unzipped is what unzipping its reply into the original directory
   * gives: no other worker touched it.
   */
  lemma {:induction false} UnzipsAt(dirs: map<string, Directory>, world: World, ext: Externals,
                                    log: seq<(int, WorkerOutcome)>, begin: int, i: nat)
    requires forall j :: 0 <= j < |log| ==> log[j].0 == begin + j
    requires i < |log| && Unzipping(world, log[i])
    ensures var id := begin + i;
            var dir := IntToString(id);
            var after := Unzips(dirs, world, ext, log);
            var unzipped := Unzipped(dirs, id, FirstReply(world.fetch(id), 0).value, ext).0;
            (dir in after <==> dir in unzipped) && (dir in unzipped ==> after[dir] == unzipped[dir])
    decreases |log|
  {
    var id := begin + i;
    var dir := IntToString(id);
    var init := log[..|log| - 1];
    forall j | 0 <= j < |init| ensures init[j].0 == begin + j {
      assert init[j] == log[j];
    }
    if i == |log| - 1 {
      forall j | 0 <= j < |init| && Unzipping(world, init[j]) ensures dir != IntToString(init[j].0) {
        assert init[j] == log[j];
        if dir == IntToString(init[j].0) {
          IntToStringInjective(id, init[j].0);
        }
      }
      UnzipsElsewhere(dirs, world, ext, init, dir);
    } else {
      assert init[i] == log[i];
      UnzipsAt(dirs, world, ext, init, begin, i);
      var last := log[|log| - 1];
      if last.1.Attempted? {
        if dir == IntToString(last.0) {
          IntToStringInjective(id, last.0);
        }
        IngestedDirsElsewhere(Unzips(dirs, world, ext, init), last.0, FirstReply(world.fetch(last.0), 0), ext, dir);
      }
    }
  }

  /** The log holds one entry per id from `begin` on, in order, each reporting what its worker did. */
  ghost predicate Logged(tables: map<Repo, Partition>, dirs: map<string, Directory>, world: World, ext: Externals,
                         begin: int, log: seq<(int, WorkerOutcome)>)
    requires ValidExternals(ext)
    requires Official in tables && Creator in tables && Custom in tables
  {
    forall i :: 0 <= i < |log| ==> log[i].0 == begin + i && Reported(tables, dirs, world, ext, begin + i, log[i].1)
  }

  /** A report for the next id extends the log. */
  lemma LoggedSnoc(tables: map<Repo, Partition>, dirs: map<string, Directory>, world: World, ext: Externals,
                   begin: int, log: seq<(int, WorkerOutcome)>, id: int, outcome: WorkerOutcome)
    requires ValidExternals(ext)
    requires Official in tables && Creator in tables && Custom in tables
    requires Logged(tables, dirs, world, ext, begin, log) && id == begin + |log|
    requires Reported(tables, dirs, world, ext, id, outcome)
    ensures Logged(tables, dirs, world, ext, begin, log + [(id, outcome)])
  {
  }

  /** No worker of the log, one per id from `begin` on, touched the directory of the next id. */
  lemma UnzipsBeforeNext(dirs: map<string, Directory>, world: World, ext: Externals,
                         log: seq<(int, WorkerOutcome)>, begin: int)
    requires forall i :: 0 <= i < |log| ==> log[i].0 == begin + i
    ensures SameDirectory(Unzips(dirs, world, ext, log), dirs, IntToString(begin + |log|))
  {
    var dir := IntToString(begin + |log|);
    forall i | 0 <= i < |log| && Unzipping(world, log[i]) ensures dir != IntToString(log[i].0) {
      if dir == IntToString(log[i].0) {
        IntToStringInjective(begin + |log|, log[i].0);
      }
    }
    UnzipsElsewhere(dirs, world, ext, log, dir);
  }

  /**
   * Update: every id of [begin, end) is handed to a worker exactly once, in
   * increasing order. The log records what happened to each; the partitions
   * gain exactly the packages the log reports inserted, and rows stored
   * before are never changed; the disk is what the logged unzips leave.
   */
  method Update(begin: int, end: int, world: World, disk: Disk, store: StickerStore, ext: Externals)
    returns (log: seq<(int, WorkerOutcome)>)
    requires store.Valid() && ValidExternals(ext)
    modifies disk, store
    ensures store.Valid() && store.summary == old(store.summary)
    ensures |log| == if end > begin then end - begin else 0
    ensures forall i :: 0 <= i < |log| ==> log[i].0 == begin + i
    ensures forall i :: 0 <= i < |log| ==> Reported(old(store.tables), old(disk.dirs), world, ext, begin + i, log[i].1)
    ensures forall i :: 0 <= i < |log| && log[i].0 == 999999 ==> log[i].1 == LookupFailed
    ensures Extends(old(store.tables), store.tables)
    ensures InsertsOf(old(store.tables), store.tables, begin, log)
    ensures disk.dirs == Unzips(old(disk.dirs), world, ext, log)
  {
    log := [];
    var id := begin;
    while id < end
      invariant store.Valid() && store.summary == old(store.summary)
      invariant begin <= id && (id <= end || id == begin)
      invariant |log| == id - begin
      invariant Logged(old(store.tables), old(disk.dirs), world, ext, begin, log)
      invariant Extends(old(store.tables), store.tables)
      invariant InsertsOf(old(store.tables), store.tables, begin, log)
      invariant disk.dirs == Unzips(old(disk.dirs), world, ext, log)
    {
      ghost var tablesBefore := store.tables;
      ghost var dirsBefore := disk.dirs;
      UnzipsBeforeNext(old(disk.dirs), world, ext, log, begin);
      var outcome := Worker(id, world, disk, store, ext);
      InsertsOfStep(old(store.tables), tablesBefore, store.tables, begin, log, outcome);
      ReportedDependsOnIdOnly(tablesBefore, old(store.tables), dirsBefore, old(disk.dirs), world, ext, id, outcome);
      UnzipsSnoc(old(disk.dirs), world, ext, log, (id, outcome), disk.dirs);
      LoggedSnoc(old(store.tables), old(disk.dirs), world, ext, begin, log, id, outcome);
      log := log + [(id, outcome)];
      id := id + 1;
    }
  }
}
