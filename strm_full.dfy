/**
 * The full-sync STRM helper: the extension sets it reads from its settings,
 * the batch step that turns listed items into file and folder records for
 * the database (each id written once across all batches of a run), and the
 * decision taken for one listed item: ignore it, skip it, hand it to the
 * media-information downloader, fail it, or submit its STRM file.
 */
module StrmFull {
  import opened Wrappers
  import opened Strings
  import opened Paths
  import Http
  import Mediainfo
  import Monitor

  // ------------------------------------------------------- extension sets

  /**
   * `{f".{ext.strip()}" for ext in setting.replace("，", ",").split(",")}`:
   * the same items as the monitor's extension list, gathered into a set.
   */
  function ExtSet(setting: string): (r: set<string>)
    ensures forall x | x in r :: |x| >= 1 && x[0] == '.'
  {
    var l := Monitor.ExtList(setting);
    set x | x in l
  }

  /** A setting of items separated by "," or "，" gives exactly those items, trimmed, with a "." in front. */
  lemma {:induction false} ExtSetOfItems(items: seq<string>, sep: string)
    requires sep == "，" || sep == ","
    requires |items| >= 1
    requires forall i | 0 <= i < |items| :: ',' !in items[i] && '，' !in items[i]
    ensures ExtSet(Join(items, sep)) == set i | 0 <= i < |items| :: "." + Strip(items[i])
  {
    Monitor.ExtListOfItems(items, sep);
    var l := Monitor.ExtList(Join(items, sep));
    forall x | x in ExtSet(Join(items, sep))
      ensures x in set i | 0 <= i < |items| :: "." + Strip(items[i])
    {
      var i :| 0 <= i < |l| && l[i] == x;
    }
  }

  /**
   * The file's suffix is lower-cased before the lookup but the set is not,
   * so an extension written with a capital letter never matches.
   */
  lemma {:induction false} CapitalExtensionNeverMatches(setting: string, name: string, x: string, k: int)
    requires x in ExtSet(setting)
    requires 0 <= k < |x| && 'A' <= x[k] <= 'Z'
    ensures Lower(Monitor.Suffix(name)) != x
  {
    var s := Lower(Monitor.Suffix(name));
    if |s| == |x| {
      assert s[k] == LowerChar(Monitor.Suffix(name)[k]);
      assert s[k] != x[k];
    }
  }

  // ---------------------------------------------------- database records

  /** An ancestor folder as the listing reports it, root first. */
  datatype Ancestor = Ancestor(id: int, parentId: int, name: string)

  /** A listed file; the keys read with a default are `None` when absent. */
  datatype Item = Item(
    id: int, parentId: int, name: string,
    ancestors: Option<seq<Ancestor>>,
    sha1: Option<string>, size: Option<int>,
    pickcode: Option<string>, pickCode: Option<string>,
    ctime: Option<int>, mtime: Option<int>, path: Option<string>)

  /** A row of the `folders` table. */
  datatype FolderRecord = FolderRecord(id: int, parentId: int, name: string, path: string)

  /** A row of the `files` table. */
  datatype FileRecord = FileRecord(
    id: int, parentId: int, name: string, sha1: string, size: int,
    pickcode: string, ctime: int, mtime: int, path: string)

  /** The key an id is remembered under: `str(id)`. */
  function Key(id: int): string {
    IntToString(id)
  }

  /** `item.get("ancestors", [])` */
  function Ancestors(item: Item): seq<Ancestor> {
    if item.ancestors.Some? then item.ancestors.value else []
  }

  /** `ancestors[1:-1]`: the folders strictly between the root and the item. */
  function Kept(ancestors: seq<Ancestor>): (r: seq<Ancestor>)
    ensures |r| == if |ancestors| >= 2 then |ancestors| - 2 else 0
    ensures forall j | 0 <= j < |r| :: r[j] == ancestors[j + 1]
  {
    if |ancestors| >= 2 then ancestors[1..|ancestors| - 1] else []
  }

  function KeptOf(item: Item): seq<Ancestor> {
    Kept(Ancestors(item))
  }

  function Names(xs: seq<Ancestor>): (r: seq<string>)
    ensures |r| == |xs|
  {
    seq(|xs|, j requires 0 <= j < |xs| => xs[j].name)
  }

  /** The path of the `j`-th kept folder: "/" and the names of the kept folders up to it. */
  function FolderPath(kept: seq<Ancestor>, j: nat): string
    requires j < |kept|
  {
    "/" + Join(Names(kept[..j + 1]), "/")
  }

  /** The record written for the `j`-th kept folder of an item. */
  function FolderAt(item: Item, j: nat): FolderRecord
    requires j < |KeptOf(item)|
  {
    var a := KeptOf(item)[j];
    FolderRecord(a.id, a.parentId, a.name, FolderPath(KeptOf(item), j))
  }

  /** `item.get("pickcode", item.get("pick_code", ""))` */
  function PickcodeOf(item: Item): (r: string)
    ensures item.pickcode.Some? ==> r == item.pickcode.value
    ensures item.pickcode.None? && item.pickCode.Some? ==> r == item.pickCode.value
    ensures item.pickcode.None? && item.pickCode.None? ==> r == ""
  {
    match item.pickcode
    case Some(p) => p
    case None => if item.pickCode.Some? then item.pickCode.value else ""
  }

  function OrElse<T>(o: Option<T>, d: T): T {
    if o.Some? then o.value else d
  }

  /** The record written for an item; absent keys get "" or 0. */
  function FileRecordOf(item: Item): (r: FileRecord)
    ensures r.id == item.id && r.pickcode == PickcodeOf(item)
  {
    FileRecord(item.id, item.parentId, item.name, OrElse(item.sha1, ""), OrElse(item.size, 0),
      PickcodeOf(item), OrElse(item.ctime, 0), OrElse(item.mtime, 0), OrElse(item.path, ""))
  }

  /** What one batch collects: the rows to write and the ids seen so far. */
  datatype Collected = Collected(
    folders: seq<FolderRecord>, files: seq<FileRecord>,
    seenFolders: set<string>, seenFiles: set<string>)

  /** Processing the first `n` kept folders of an item. */
  function FoldAncestors(c: Collected, kept: seq<Ancestor>, n: nat): Collected
    requires n <= |kept|
    decreases n
  {
    if n == 0 then c
    else
      var p := FoldAncestors(c, kept, n - 1);
      var a := kept[n - 1];
      if Key(a.id) in p.seenFolders then p
      else
        p.(folders := p.folders + [FolderRecord(a.id, a.parentId, a.name, FolderPath(kept, n - 1))],
           seenFolders := p.seenFolders + {Key(a.id)})
  }

  /** An item's folders leave the file rows and seen files alone, and only add folder rows and keys. */
  lemma {:induction false} FoldAncestorsFrame(c: Collected, kept: seq<Ancestor>, n: nat)
    requires n <= |kept|
    ensures var r := FoldAncestors(c, kept, n);
      r.files == c.files && r.seenFiles == c.seenFiles && c.seenFolders <= r.seenFolders &&
      |c.folders| <= |r.folders| && r.folders[..|c.folders|] == c.folders
    decreases n
  {
    if n > 0 {
      FoldAncestorsFrame(c, kept, n - 1);
      var p := FoldAncestors(c, kept, n - 1);
      var r := FoldAncestors(c, kept, n);
      assert r.folders[..|c.folders|] == p.folders[..|c.folders|];
    }
  }

  /** One more kept folder: a new one is written with its path and remembered, a seen one is skipped. */
  lemma FoldAncestorsNext(c: Collected, kept: seq<Ancestor>, j: nat)
    requires j < |kept|
    ensures var p := FoldAncestors(c, kept, j);
      var a := kept[j];
      FoldAncestors(c, kept, j + 1) ==
        if Key(a.id) in p.seenFolders then p
        else p.(folders := p.folders + [FolderRecord(a.id, a.parentId, a.name, FolderPath(kept, j))],
                seenFolders := p.seenFolders + {Key(a.id)})
  {
  }

  lemma NamesNext(kept: seq<Ancestor>, j: nat)
    requires j < |kept|
    ensures Names(kept[..j + 1]) == Names(kept[..j]) + [kept[j].name]
  {
  }

  /** One item: its kept folders, then the item itself. */
  function ItemStep(c: Collected, item: Item): Collected {
    var p := FoldAncestors(c, KeptOf(item), |KeptOf(item)|);
    if Key(item.id) in p.seenFiles then p
    else p.(files := p.files + [FileRecordOf(item)], seenFiles := p.seenFiles + {Key(item.id)})
  }

  /** Processing the first `n` items of a batch. */
  function FoldBatch(c: Collected, batch: seq<Item>, n: nat): Collected
    requires n <= |batch|
    decreases n
  {
    if n == 0 then c else ItemStep(FoldBatch(c, batch, n - 1), batch[n - 1])
  }

  lemma FoldBatchNext(c: Collected, batch: seq<Item>, i: nat)
    requires i < |batch|
    ensures FoldBatch(c, batch, i + 1) == ItemStep(FoldBatch(c, batch, i), batch[i])
  {
  }

  /** `__process_db_item` on a batch and the ids seen in earlier batches. */
  function ProcessDbItemSpec(batch: seq<Item>, seenFolders: set<string>, seenFiles: set<string>): Collected {
    FoldBatch(Collected([], [], seenFolders, seenFiles), batch, |batch|)
  }

  /** One pass of the loop body of `__process_db_item`: an item's kept folders, then the item. */
  method ProcessItem(c: Collected, item: Item) returns (r: Collected)
    ensures r == ItemStep(c, item)
  {
    var folders, seenFolders := c.folders, c.seenFolders;
    var ancestors := if item.ancestors.Some? then item.ancestors.value else [];
    var kept := if |ancestors| >= 2 then ancestors[1..|ancestors| - 1] else [];
    assert kept == KeptOf(item);
    var parts: seq<string> := [];
    var j := 0;
    while j < |kept|
      invariant 0 <= j <= |kept|
      invariant parts == Names(kept[..j])
      invariant c.(folders := folders, seenFolders := seenFolders) == FoldAncestors(c, kept, j)
    {
      var a := kept[j];
      NamesNext(kept, j);
      FoldAncestorsNext(c, kept, j);
      parts := parts + [a.name];
      var path := "/" + Join(parts, "/");
      var ancestorId := IntToString(a.id);
      if ancestorId !in seenFolders {
        folders := folders + [FolderRecord(a.id, a.parentId, a.name, path)];
        seenFolders := seenFolders + {ancestorId};
      }
      j := j + 1;
    }
    var files, seenFiles := c.files, c.seenFiles;
    var fileId := IntToString(item.id);
    if fileId !in seenFiles {
      files := files + [FileRecordOf(item)];
      seenFiles := seenFiles + {fileId};
    }
    r := Collected(folders, files, seenFolders, seenFiles);
  }

  /**
   * `__process_db_item`: the rows to upsert into `files` and `folders`, and
   * the seen-id sets with this batch's ids added.
   */
  method ProcessDbItem(batch: seq<Item>, seenFolders: set<string>, seenFiles: set<string>)
    returns (folders: seq<FolderRecord>, files: seq<FileRecord>, seenFolders': set<string>, seenFiles': set<string>)
    ensures Collected(folders, files, seenFolders', seenFiles') == ProcessDbItemSpec(batch, seenFolders, seenFiles)
  {
    var c := Collected([], [], seenFolders, seenFiles);
    ghost var start := c;
    var i := 0;
    while i < |batch|
      invariant 0 <= i <= |batch|
      invariant c == FoldBatch(start, batch, i)
    {
      FoldBatchNext(start, batch, i);
      c := ProcessItem(c, batch[i]);
      i := i + 1;
    }
    folders, files, seenFolders', seenFiles' := c.folders, c.files, c.seenFolders, c.seenFiles;
  }

  // ------------------------------------------------ what a batch writes

  /** Every file row is new to the run, is remembered, and appears once. */
  predicate FilesOnce(c: Collected, seen0: set<string>) {
    (forall i | 0 <= i < |c.files| :: Key(c.files[i].id) in c.seenFiles && Key(c.files[i].id) !in seen0) &&
    (forall i, j | 0 <= i < j < |c.files| :: c.files[i].id != c.files[j].id)
  }

  /** Every folder row is new to the run, is remembered, and appears once. */
  predicate FoldersOnce(c: Collected, seen0: set<string>) {
    (forall i | 0 <= i < |c.folders| :: Key(c.folders[i].id) in c.seenFolders && Key(c.folders[i].id) !in seen0) &&
    (forall i, j | 0 <= i < j < |c.folders| :: c.folders[i].id != c.folders[j].id)
  }

  lemma {:induction false} FoldAncestorsOnce(c: Collected, kept: seq<Ancestor>, n: nat, seen0: set<string>)
    requires n <= |kept|
    requires FoldersOnce(c, seen0) && seen0 <= c.seenFolders
    ensures FoldersOnce(FoldAncestors(c, kept, n), seen0)
    decreases n
  {
    if n > 0 {
      FoldAncestorsOnce(c, kept, n - 1, seen0);
      FoldAncestorsFrame(c, kept, n - 1);
    }
  }

  /** One item keeps the file rows new and written once. */
  lemma {:induction false} ItemStepFilesOnce(seen0: set<string>, c: Collected, item: Item, r: Collected)
    requires r == ItemStep(c, item)
    requires FilesOnce(c, seen0) && seen0 <= c.seenFiles
    ensures FilesOnce(r, seen0) && seen0 <= r.seenFiles
  {
    FoldAncestorsFrame(c, KeptOf(item), |KeptOf(item)|);
  }

  /** One item keeps the folder rows new and written once. */
  lemma {:induction false} ItemStepFoldersOnce(seen0: set<string>, c: Collected, item: Item, r: Collected)
    requires r == ItemStep(c, item)
    requires FoldersOnce(c, seen0) && seen0 <= c.seenFolders
    ensures FoldersOnce(r, seen0) && seen0 <= r.seenFolders
  {
    FoldAncestorsOnce(c, KeptOf(item), |KeptOf(item)|, seen0);
    FoldAncestorsFrame(c, KeptOf(item), |KeptOf(item)|);
  }

  /** After the first `n` items every file row is new to the run and written once. */
  predicate FilesOnceAfter(c: Collected, batch: seq<Item>, n: nat)
    requires n <= |batch|
  {
    FilesOnce(FoldBatch(c, batch, n), c.seenFiles) && c.seenFiles <= FoldBatch(c, batch, n).seenFiles
  }

  /** After the first `n` items every folder row is new to the run and written once. */
  predicate FoldersOnceAfter(c: Collected, batch: seq<Item>, n: nat)
    requires n <= |batch|
  {
    FoldersOnce(FoldBatch(c, batch, n), c.seenFolders) && c.seenFolders <= FoldBatch(c, batch, n).seenFolders
  }

  lemma FilesOnceStep(c: Collected, batch: seq<Item>, n: nat)
    requires 0 < n <= |batch| && FilesOnceAfter(c, batch, n - 1)
    ensures FilesOnceAfter(c, batch, n)
  {
    FoldBatchNext(c, batch, n - 1);
    ItemStepFilesOnce(c.seenFiles, FoldBatch(c, batch, n - 1), batch[n - 1], FoldBatch(c, batch, n));
  }

  lemma FoldersOnceStep(c: Collected, batch: seq<Item>, n: nat)
    requires 0 < n <= |batch| && FoldersOnceAfter(c, batch, n - 1)
    ensures FoldersOnceAfter(c, batch, n)
  {
    FoldBatchNext(c, batch, n - 1);
    ItemStepFoldersOnce(c.seenFolders, FoldBatch(c, batch, n - 1), batch[n - 1], FoldBatch(c, batch, n));
  }

  /** From an empty collection, every row a batch writes is new and written once, and the seen sets only grow. */
  lemma {:induction false} FoldBatchOnce(c: Collected, batch: seq<Item>, n: nat)
    requires n <= |batch|
    requires c.folders == [] && c.files == []
    ensures FilesOnceAfter(c, batch, n) && FoldersOnceAfter(c, batch, n)
    decreases n
  {
    if n > 0 {
      FoldBatchOnce(c, batch, n - 1);
      FilesOnceStep(c, batch, n);
      FoldersOnceStep(c, batch, n);
    }
  }

  /**
   * Within a batch no file id and no folder id is written twice, and none
   * that an earlier batch of the run wrote; the seen sets only grow and
   * hold every id written.
   */
  lemma {:induction false} EachIdWrittenOnce(batch: seq<Item>, seenFolders: set<string>, seenFiles: set<string>)
    ensures var c := ProcessDbItemSpec(batch, seenFolders, seenFiles);
      seenFolders <= c.seenFolders && seenFiles <= c.seenFiles &&
      (forall i | 0 <= i < |c.files| :: Key(c.files[i].id) in c.seenFiles && Key(c.files[i].id) !in seenFiles) &&
      (forall i, j | 0 <= i < j < |c.files| :: c.files[i].id != c.files[j].id) &&
      (forall i | 0 <= i < |c.folders| :: Key(c.folders[i].id) in c.seenFolders && Key(c.folders[i].id) !in seenFolders) &&
      (forall i, j | 0 <= i < j < |c.folders| :: c.folders[i].id != c.folders[j].id)
  {
    FoldBatchOnce(Collected([], [], seenFolders, seenFiles), batch, |batch|);
  }

  /** Two batches of one run, the second given the sets the first returned, write no id in common. */
  lemma {:induction false} BatchesWriteDisjointIds(b1: seq<Item>, b2: seq<Item>, seenFolders: set<string>, seenFiles: set<string>)
    ensures var c1 := ProcessDbItemSpec(b1, seenFolders, seenFiles);
      var c2 := ProcessDbItemSpec(b2, c1.seenFolders, c1.seenFiles);
      (forall i, j | 0 <= i < |c1.files| && 0 <= j < |c2.files| :: c1.files[i].id != c2.files[j].id) &&
      (forall i, j | 0 <= i < |c1.folders| && 0 <= j < |c2.folders| :: c1.folders[i].id != c2.folders[j].id)
  {
    var c1 := ProcessDbItemSpec(b1, seenFolders, seenFiles);
    EachIdWrittenOnce(b1, seenFolders, seenFiles);
    EachIdWrittenOnce(b2, c1.seenFolders, c1.seenFiles);
  }

  // ------------------------------------------------------ the seen sets

  /** The keys of the first `m` kept folders. */
  function AncestorKeys(kept: seq<Ancestor>, m: nat): set<string>
    requires m <= |kept|
    decreases m
  {
    if m == 0 then {} else AncestorKeys(kept, m - 1) + {Key(kept[m - 1].id)}
  }

  /** The keys of the first `n` items of a batch. */
  function FileKeys(batch: seq<Item>, n: nat): set<string>
    requires n <= |batch|
    decreases n
  {
    if n == 0 then {} else FileKeys(batch, n - 1) + {Key(batch[n - 1].id)}
  }

  /** The keys of the kept folders of the first `n` items of a batch. */
  function FolderKeys(batch: seq<Item>, n: nat): set<string>
    requires n <= |batch|
    decreases n
  {
    if n == 0 then {} else FolderKeys(batch, n - 1) + AncestorKeys(KeptOf(batch[n - 1]), |KeptOf(batch[n - 1])|)
  }

  lemma {:induction false} FoldAncestorsSeen(c: Collected, kept: seq<Ancestor>, n: nat)
    requires n <= |kept|
    ensures FoldAncestors(c, kept, n).seenFolders == c.seenFolders + AncestorKeys(kept, n)
    decreases n
  {
    if n > 0 {
      FoldAncestorsSeen(c, kept, n - 1);
    }
  }

  /** One item adds its own key and the keys of its kept folders. */
  lemma {:induction false} ItemStepSeen(c: Collected, item: Item)
    ensures ItemStep(c, item).seenFiles == c.seenFiles + {Key(item.id)}
    ensures ItemStep(c, item).seenFolders == c.seenFolders + AncestorKeys(KeptOf(item), |KeptOf(item)|)
  {
    FoldAncestorsSeen(c, KeptOf(item), |KeptOf(item)|);
    FoldAncestorsFrame(c, KeptOf(item), |KeptOf(item)|);
  }

  /** The seen sets after one more item of a batch. */
  lemma FoldBatchNextSeen(c: Collected, batch: seq<Item>, n: nat)
    requires 0 < n <= |batch|
    ensures FoldBatch(c, batch, n).seenFiles == FoldBatch(c, batch, n - 1).seenFiles + {Key(batch[n - 1].id)}
    ensures FoldBatch(c, batch, n).seenFolders ==
      FoldBatch(c, batch, n - 1).seenFolders + AncestorKeys(KeptOf(batch[n - 1]), |KeptOf(batch[n - 1])|)
  {
    ItemStepSeen(FoldBatch(c, batch, n - 1), batch[n - 1]);
  }

  lemma KeysNext(batch: seq<Item>, n: nat)
    requires 0 < n <= |batch|
    ensures FileKeys(batch, n) == FileKeys(batch, n - 1) + {Key(batch[n - 1].id)}
    ensures FolderKeys(batch, n) == FolderKeys(batch, n - 1) + AncestorKeys(KeptOf(batch[n - 1]), |KeptOf(batch[n - 1])|)
  {
  }

  /** After the first `n` items, the seen files are the earlier ones and the items' keys. */
  predicate SeenFilesAfter(c: Collected, batch: seq<Item>, n: nat)
    requires n <= |batch|
  {
    FoldBatch(c, batch, n).seenFiles == c.seenFiles + FileKeys(batch, n)
  }

  /** After the first `n` items, the seen folders are the earlier ones and the kept folders' keys. */
  predicate SeenFoldersAfter(c: Collected, batch: seq<Item>, n: nat)
    requires n <= |batch|
  {
    FoldBatch(c, batch, n).seenFolders == c.seenFolders + FolderKeys(batch, n)
  }

  lemma SeenFilesStep(c: Collected, batch: seq<Item>, n: nat)
    requires 0 < n <= |batch| && SeenFilesAfter(c, batch, n - 1)
    ensures SeenFilesAfter(c, batch, n)
  {
    FoldBatchNextSeen(c, batch, n);
    KeysNext(batch, n);
  }

  lemma SeenFoldersStep(c: Collected, batch: seq<Item>, n: nat)
    requires 0 < n <= |batch| && SeenFoldersAfter(c, batch, n - 1)
    ensures SeenFoldersAfter(c, batch, n)
  {
    FoldBatchNextSeen(c, batch, n);
    KeysNext(batch, n);
  }

  /** The seen sets after a batch: the earlier ones, the items' keys and their kept folders' keys. */
  lemma {:induction false} FoldBatchSeen(c: Collected, batch: seq<Item>, n: nat)
    requires n <= |batch|
    ensures SeenFilesAfter(c, batch, n) && SeenFoldersAfter(c, batch, n)
    decreases n
  {
    if n > 0 {
      FoldBatchSeen(c, batch, n - 1);
      SeenFilesStep(c, batch, n);
      SeenFoldersStep(c, batch, n);
    }
  }

  lemma {:induction false} AncestorKeysMembers(kept: seq<Ancestor>, m: nat)
    requires m <= |kept|
    ensures forall x :: x in AncestorKeys(kept, m) <==> exists j | 0 <= j < m :: x == Key(kept[j].id)
    decreases m
  {
    if m > 0 {
      AncestorKeysMembers(kept, m - 1);
    }
  }

  lemma {:induction false} FileKeysMembers(batch: seq<Item>, n: nat)
    requires n <= |batch|
    ensures forall x :: x in FileKeys(batch, n) <==> exists k | 0 <= k < n :: x == Key(batch[k].id)
    decreases n
  {
    if n > 0 {
      FileKeysMembers(batch, n - 1);
    }
  }

  /** `x` is the key of one of the item's kept folders. */
  predicate KeptKey(item: Item, x: string) {
    exists j | 0 <= j < |KeptOf(item)| :: x == Key(KeptOf(item)[j].id)
  }

  /** `x` is the key of a kept folder of one of the first `n` items of a batch. */
  predicate IsFolderKey(batch: seq<Item>, n: nat, x: string)
    requires n <= |batch|
  {
    exists k | 0 <= k < n :: KeptKey(batch[k], x)
  }

  /** A folder key of the first `n` items is one of the first `n - 1` items or one of the `n`-th item's. */
  lemma IsFolderKeyStep(batch: seq<Item>, n: nat, x: string)
    requires 0 < n <= |batch|
    ensures IsFolderKey(batch, n, x) <==> IsFolderKey(batch, n - 1, x) || KeptKey(batch[n - 1], x)
  {
    if IsFolderKey(batch, n, x) {
      var k :| 0 <= k < n && KeptKey(batch[k], x);
      if k < n - 1 {
        assert IsFolderKey(batch, n - 1, x);
      }
    }
    if IsFolderKey(batch, n - 1, x) {
      var k :| 0 <= k < n - 1 && KeptKey(batch[k], x);
      assert 0 <= k < n;
    }
    if KeptKey(batch[n - 1], x) {
      assert 0 <= n - 1 < n;
    }
  }

  lemma {:induction false} FolderKeysMembers(batch: seq<Item>, n: nat)
    requires n <= |batch|
    ensures forall x :: x in FolderKeys(batch, n) <==> IsFolderKey(batch, n, x)
    decreases n
  {
    if n > 0 {
      var kept := KeptOf(batch[n - 1]);
      FolderKeysMembers(batch, n - 1);
      AncestorKeysMembers(kept, |kept|);
      forall x
        ensures x in FolderKeys(batch, n) <==> IsFolderKey(batch, n, x)
      {
        IsFolderKeyStep(batch, n, x);
      }
    }
  }

  /**
   * The returned sets are the given ones plus the id of every item of the
   * batch and of every folder strictly between the root and an item.
   */
  lemma {:induction false} SeenSetsReturned(batch: seq<Item>, seenFolders: set<string>, seenFiles: set<string>)
    ensures var c := ProcessDbItemSpec(batch, seenFolders, seenFiles);
      (forall x :: x in c.seenFiles <==> x in seenFiles || exists k | 0 <= k < |batch| :: x == Key(batch[k].id)) &&
      (forall x :: x in c.seenFolders <==> x in seenFolders || IsFolderKey(batch, |batch|, x))
  {
    FoldBatchSeen(Collected([], [], seenFolders, seenFiles), batch, |batch|);
    FileKeysMembers(batch, |batch|);
    FolderKeysMembers(batch, |batch|);
  }

  // --------------------------------------------- where the rows come from

  /** The first kept folder's path is "/" and its name; each next one extends the previous by "/" and its name. */
  lemma {:induction false} FolderPathOfChild(kept: seq<Ancestor>, j: nat)
    requires j + 1 < |kept|
    ensures FolderPath(kept, 0) == "/" + kept[0].name
    ensures FolderPath(kept, j + 1) == FolderPath(kept, j) + "/" + kept[j + 1].name
  {
    assert Names(kept[..1]) == [kept[0].name];
    assert Names(kept[..j + 2]) == Names(kept[..j + 1]) + [kept[j + 1].name];
    JoinSnoc(Names(kept[..j + 1]), kept[j + 1].name, "/");
  }

  lemma {:induction false} FoldAncestorsFrom(c: Collected, item: Item, m: nat)
    requires m <= |KeptOf(item)|
    ensures forall i | |c.folders| <= i < |FoldAncestors(c, KeptOf(item), m).folders| ::
      exists j | 0 <= j < m :: FoldAncestors(c, KeptOf(item), m).folders[i] == FolderAt(item, j)
    decreases m
  {
    if m > 0 {
      var kept := KeptOf(item);
      FoldAncestorsFrom(c, item, m - 1);
      var p := FoldAncestors(c, kept, m - 1);
      var r := FoldAncestors(c, kept, m);
      if Key(kept[m - 1].id) !in p.seenFolders {
        assert r.folders == p.folders + [FolderAt(item, m - 1)];
      }
      forall i | |c.folders| <= i < |r.folders|
        ensures exists j | 0 <= j < m :: r.folders[i] == FolderAt(item, j)
      {
        if i < |p.folders| {
          var j :| 0 <= j < m - 1 && p.folders[i] == FolderAt(item, j);
          assert r.folders[i] == p.folders[i];
        } else {
          assert r.folders[i] == FolderAt(item, m - 1);
        }
      }
    } else {
      assert FoldAncestors(c, KeptOf(item), m) == c;
    }
  }

  /** `f` is the record of the `j`-th kept folder of one of the first `n` items. */
  predicate FolderFromBatch(f: FolderRecord, batch: seq<Item>, n: nat)
    requires n <= |batch|
  {
    exists k, j | 0 <= k < n && 0 <= j < |KeptOf(batch[k])| :: f == FolderAt(batch[k], j)
  }

  /** `f` is the record of one of the first `n` items. */
  predicate FileFromBatch(f: FileRecord, batch: seq<Item>, n: nat)
    requires n <= |batch|
  {
    exists k | 0 <= k < n :: f == FileRecordOf(batch[k])
  }

  /** Every row is built from the items processed so far. */
  predicate RowsFrom(c: Collected, batch: seq<Item>, n: nat)
    requires n <= |batch|
  {
    (forall i | 0 <= i < |c.folders| :: FolderFromBatch(c.folders[i], batch, n)) &&
    (forall i | 0 <= i < |c.files| :: FileFromBatch(c.files[i], batch, n))
  }

  /** The rows collected from the first `n` items are built from those items. */
  predicate RowsFromAfter(c: Collected, batch: seq<Item>, n: nat)
    requires n <= |batch|
  {
    RowsFrom(FoldBatch(c, batch, n), batch, n)
  }

  /** Processing one more item keeps every row traceable to the items processed. */
  lemma {:induction false} FoldBatchFromStep(c: Collected, batch: seq<Item>, n: nat)
    requires 0 < n <= |batch|
    requires RowsFromAfter(c, batch, n - 1)
    ensures RowsFromAfter(c, batch, n)
  {
    var p, item := FoldBatch(c, batch, n - 1), batch[n - 1];
    var q := FoldAncestors(p, KeptOf(item), |KeptOf(item)|);
    var r := FoldBatch(c, batch, n);
    assert r == ItemStep(p, item);
    FoldAncestorsFrom(p, item, |KeptOf(item)|);
    FoldAncestorsFrame(p, KeptOf(item), |KeptOf(item)|);
    assert r.folders == q.folders;
    forall i | 0 <= i < |r.folders|
      ensures FolderFromBatch(r.folders[i], batch, n)
    {
      if i < |p.folders| {
        assert r.folders[i] == q.folders[..|p.folders|][i] == p.folders[i];
        assert FolderFromBatch(p.folders[i], batch, n - 1);
        var k, j :| 0 <= k < n - 1 && 0 <= j < |KeptOf(batch[k])| && p.folders[i] == FolderAt(batch[k], j);
      } else {
        var j :| 0 <= j < |KeptOf(item)| && r.folders[i] == FolderAt(item, j);
      }
    }
    forall i | 0 <= i < |r.files|
      ensures FileFromBatch(r.files[i], batch, n)
    {
      if i < |p.files| {
        assert FileFromBatch(p.files[i], batch, n - 1);
        var k :| 0 <= k < n - 1 && p.files[i] == FileRecordOf(batch[k]);
        assert r.files[i] == p.files[i];
      } else {
        assert r.files[i] == FileRecordOf(item);
      }
    }
  }

  lemma {:induction false} FoldBatchFrom(c: Collected, batch: seq<Item>, n: nat)
    requires n <= |batch|
    requires c.folders == [] && c.files == []
    ensures RowsFromAfter(c, batch, n)
    decreases n
  {
    if n > 0 {
      FoldBatchFrom(c, batch, n - 1);
      FoldBatchFromStep(c, batch, n);
    }
  }

  /**
   * Every folder row is the record of some item's `j`-th folder strictly
   * between the root and the item, with that folder's path; every file row
   * is the record of some item of the batch.
   */
  lemma {:induction false} RowsComeFromBatch(batch: seq<Item>, seenFolders: set<string>, seenFiles: set<string>)
    ensures var c := ProcessDbItemSpec(batch, seenFolders, seenFiles);
      (forall i | 0 <= i < |c.folders| :: FolderFromBatch(c.folders[i], batch, |batch|)) &&
      (forall i | 0 <= i < |c.files| :: FileFromBatch(c.files[i], batch, |batch|))
  {
    FoldBatchFrom(Collected([], [], seenFolders, seenFiles), batch, |batch|);
  }

  // --------------------------------------------------- nothing is lost

  /** Some row of `files` has this id. */
  predicate HasFileRow(files: seq<FileRecord>, id: int) {
    exists i | 0 <= i < |files| :: files[i].id == id
  }

  /** Some row of `folders` has this id. */
  predicate HasFolderRow(folders: seq<FolderRecord>, id: int) {
    exists i | 0 <= i < |folders| :: folders[i].id == id
  }

  /** Every key the batch added to a seen set belongs to a row it wrote. */
  predicate Covered(c: Collected, foldersSeen0: set<string>, filesSeen0: set<string>) {
    (forall x | x in c.seenFolders && x !in foldersSeen0 ::
      exists i | 0 <= i < |c.folders| :: Key(c.folders[i].id) == x) &&
    (forall x | x in c.seenFiles && x !in filesSeen0 ::
      exists i | 0 <= i < |c.files| :: Key(c.files[i].id) == x)
  }

  lemma {:induction false} FoldAncestorsCovered(c: Collected, kept: seq<Ancestor>, n: nat, foldersSeen0: set<string>, filesSeen0: set<string>)
    requires n <= |kept|
    requires Covered(c, foldersSeen0, filesSeen0)
    ensures Covered(FoldAncestors(c, kept, n), foldersSeen0, filesSeen0)
    decreases n
  {
    if n > 0 {
      FoldAncestorsCovered(c, kept, n - 1, foldersSeen0, filesSeen0);
      var p := FoldAncestors(c, kept, n - 1);
      var r := FoldAncestors(c, kept, n);
      var a := kept[n - 1];
      if Key(a.id) !in p.seenFolders {
        assert r.folders == p.folders + [FolderRecord(a.id, a.parentId, a.name, FolderPath(kept, n - 1))];
        forall x | x in r.seenFolders && x !in foldersSeen0
          ensures exists i | 0 <= i < |r.folders| :: Key(r.folders[i].id) == x
        {
          if x == Key(a.id) {
            assert Key(r.folders[|p.folders|].id) == x;
          } else {
            var i :| 0 <= i < |p.folders| && Key(p.folders[i].id) == x;
            assert r.folders[i] == p.folders[i];
          }
        }
      }
    }
  }

  /** After the first `n` items, every key they added to the seen sets has a row. */
  predicate CoveredAfter(c: Collected, batch: seq<Item>, n: nat)
    requires n <= |batch|
  {
    Covered(FoldBatch(c, batch, n), c.seenFolders, c.seenFiles)
  }

  lemma {:induction false} FoldBatchCoveredStep(c: Collected, batch: seq<Item>, n: nat)
    requires 0 < n <= |batch|
    requires CoveredAfter(c, batch, n - 1)
    ensures CoveredAfter(c, batch, n)
  {
    var p, item := FoldBatch(c, batch, n - 1), batch[n - 1];
    var q := FoldAncestors(p, KeptOf(item), |KeptOf(item)|);
    var r := FoldBatch(c, batch, n);
    assert r == ItemStep(p, item);
    FoldAncestorsCovered(p, KeptOf(item), |KeptOf(item)|, c.seenFolders, c.seenFiles);
    if Key(item.id) !in q.seenFiles {
      assert r.files == q.files + [FileRecordOf(item)];
      forall x | x in r.seenFiles && x !in c.seenFiles
        ensures exists i | 0 <= i < |r.files| :: Key(r.files[i].id) == x
      {
        if x == Key(item.id) {
          assert Key(r.files[|q.files|].id) == x;
        } else {
          var i :| 0 <= i < |q.files| && Key(q.files[i].id) == x;
          assert r.files[i] == q.files[i];
        }
      }
    }
  }

  lemma {:induction false} FoldBatchCovered(c: Collected, batch: seq<Item>, n: nat)
    requires n <= |batch|
    requires c.folders == [] && c.files == []
    ensures CoveredAfter(c, batch, n)
    decreases n
  {
    if n > 0 {
      FoldBatchCovered(c, batch, n - 1);
      FoldBatchCoveredStep(c, batch, n);
    }
  }

  /**
   * Nothing is lost: every item, and every folder strictly between the
   * root and an item, whose id no earlier batch wrote gets a row.
   */
  lemma {:induction false} NewIdsGetRows(batch: seq<Item>, seenFolders: set<string>, seenFiles: set<string>)
    ensures var c := ProcessDbItemSpec(batch, seenFolders, seenFiles);
      (forall k | 0 <= k < |batch| && Key(batch[k].id) !in seenFiles :: HasFileRow(c.files, batch[k].id)) &&
      (forall k, j | 0 <= k < |batch| && 0 <= j < |KeptOf(batch[k])| && Key(KeptOf(batch[k])[j].id) !in seenFolders ::
        HasFolderRow(c.folders, KeptOf(batch[k])[j].id))
  {
    var c := ProcessDbItemSpec(batch, seenFolders, seenFiles);
    FoldBatchCovered(Collected([], [], seenFolders, seenFiles), batch, |batch|);
    SeenSetsReturned(batch, seenFolders, seenFiles);
    forall k | 0 <= k < |batch| && Key(batch[k].id) !in seenFiles
      ensures HasFileRow(c.files, batch[k].id)
    {
      assert Key(batch[k].id) in c.seenFiles;
      var i :| 0 <= i < |c.files| && Key(c.files[i].id) == Key(batch[k].id);
      IntToStringInjective(c.files[i].id, batch[k].id);
    }
    forall k, j | 0 <= k < |batch| && 0 <= j < |KeptOf(batch[k])| && Key(KeptOf(batch[k])[j].id) !in seenFolders
      ensures HasFolderRow(c.folders, KeptOf(batch[k])[j].id)
    {
      var id := KeptOf(batch[k])[j].id;
      assert Key(id) in c.seenFolders;
      var i :| 0 <= i < |c.folders| && Key(c.folders[i].id) == Key(id);
      IntToStringInjective(c.folders[i].id, id);
    }
  }

  // ---------------------------------------------------- one listed item

  /** A listed item as `__process_single_item` reads it; `None` is an absent key, `repr` is `str(item)`. */
  datatype Entry = Entry(
    repr: string, path: Option<string>, isDir: Option<bool>, sha1: Option<string>,
    pickcode: Option<string>, pickCode: Option<string>, size: Option<int>)

  /** The keys `check_iter_path_data` looks for, as a dictionary of the keys present. */
  function Keys(e: Entry): (m: map<string, bool>)
    ensures "path" in m <==> e.path.Some?
    ensures "is_dir" in m <==> e.isDir.Some?
    ensures "sha1" in m <==> e.sha1.Some?
    ensures "pickcode" in m <==> e.pickcode.Some?
    ensures "pick_code" in m <==> e.pickCode.Some?
  {
    var m0: map<string, bool> := map[];
    var m1 := if e.path.Some? then m0["path" := true] else m0;
    var m2 := if e.isDir.Some? then m1["is_dir" := true] else m1;
    var m3 := if e.sha1.Some? then m2["sha1" := true] else m2;
    var m4 := if e.pickcode.Some? then m3["pickcode" := true] else m3;
    if e.pickCode.Some? then m4["pick_code" := true] else m4
  }

  /** `item.get("pickcode", item.get("pick_code", ""))`; the downloader's `None` default is as falsy as "". */
  function EntryPickcode(e: Entry): (r: string)
    ensures e.pickcode.Some? ==> r == e.pickcode.value
    ensures e.pickcode.None? && e.pickCode.Some? ==> r == e.pickCode.value
    ensures e.pickcode.None? && e.pickCode.None? ==> r == ""
  {
    if e.pickcode.Some? then e.pickcode.value else if e.pickCode.Some? then e.pickCode.value else ""
  }

  /** `len(pickcode) == 17 and pickcode.isalnum()` */
  predicate ValidPickcode(pc: string) {
    |pc| == 17 && forall i | 0 <= i < |pc| :: IsAsciiAlnum(pc[i])
  }

  datatype Status = Fail | Skip | Download | Submitted

  /** What a failure reports. */
  datatype Message =
    | KeyMissing(key: Http.MissingKey)  // "缺失 … 信息：" and the item
    | NotRelative                       // the ValueError of `relative_to`
    | NoPickcode                        // "不存在 pickcode 值"
    | NoPickcodeToDownload              // "不存在 pickcode 值，无法下载"
    | BadPickcode(pickcode: string)     // "错误的 pickcode 值 " and the pickcode

  /** What the media-information downloader is given (`"type": "local"`). */
  datatype DownloadInfo = DownloadInfo(pickcode: string, path: Path, sha1: string)

  datatype ProcessResult = ProcessResult(
    status: Status, path: Option<string>, message: Option<Message>,
    data: Option<DownloadInfo>, pathEntry: Option<string>)

  /** An STRM file put on the write queue: where, for which pickcode, for which media file. */
  datatype StrmJob = StrmJob(target: Path, pickcode: string, name: string)

  /** The returned result (`None` when the item is ignored) and the STRM file queued, if any. */
  datatype Handled = Handled(result: Option<ProcessResult>, job: Option<StrmJob>)

  /** The helper's settings that `__process_single_item` reads. */
  datatype Settings = Settings(
    panTransferEnabled: bool, panTransferPaths: string,
    autoDownloadMediainfo: bool, downloadExts: set<string>, rmtExts: set<string>,
    overwriteMode: string, removeUnlessStrm: bool,
    mediainfoBlacklist: Mediainfo.Automaton, mediainfoWhitelist: Mediainfo.Automaton)

  /** `path.name` */
  function Name(p: Path): string {
    if p.comps == [] then "" else p.comps[|p.comps| - 1]
  }

  /** `path.parent` */
  function Parent(p: Path): Path {
    if p.comps == [] then p else Path(p.absolute, p.comps[..|p.comps| - 1])
  }

  /** `PurePath(name).stem`: the name without its suffix. */
  function Stem(name: string): (r: string)
    ensures r + Monitor.Suffix(name) == name
  {
    var suffix := Monitor.Suffix(name);
    name[..|name| - |suffix|]
  }

  /** `file_path.parent / (file_path.stem + ".strm")` */
  function StrmPath(filePath: Path): Path {
    JoinPath(Parent(filePath), Parse(Stem(Name(filePath)) + ".strm"))
  }

  /** The paths worked out for an item that lies under the media directory. */
  datatype Located = Located(itemPath: string, sha1: string, filePath: Path, newFilePath: Path)

  /**
   * The first `try` block: a missing key or a failing `relative_to` is a
   * failure reported with `str(item)`; a directory or a path outside the
   * media directory is ignored.
   */
  function Locate(e: Entry, targetDir: Path, panMediaDir: string): (r: Result<Option<Located>, ProcessResult>)
    ensures r.Err? ==> r.error.status == Fail && r.error.path == Some(e.repr) && r.error.pathEntry == None
    ensures r.Ok? && r.value.Some? ==>
      e.path == Some(r.value.value.itemPath) && e.isDir == Some(false) && e.sha1 == Some(r.value.value.sha1) &&
      HasPrefix(r.value.value.itemPath, panMediaDir) &&
      RelativeTo(Parse(r.value.value.itemPath), Parse(panMediaDir)).Some? &&
      r.value.value.filePath == JoinPath(targetDir, RelativeTo(Parse(r.value.value.itemPath), Parse(panMediaDir)).value) &&
      r.value.value.newFilePath == StrmPath(r.value.value.filePath)
  {
    match Http.CheckIterPathData(Keys(e))
    case Err(k) => Err(ProcessResult(Fail, Some(e.repr), Some(KeyMissing(k)), None, None))
    case Ok(_) =>
      if e.isDir.value then Ok(None)
      else if !HasPrefix(e.path.value, panMediaDir) then Ok(None)
      else
        match RelativeTo(Parse(e.path.value), Parse(panMediaDir))
        case None => Err(ProcessResult(Fail, Some(e.repr), Some(NotRelative), None, None))
        case Some(rel) =>
          var filePath := JoinPath(targetDir, rel);
          Ok(Some(Located(e.path.value, e.sha1.value, filePath, StrmPath(filePath))))
  }

  /** `file_path.suffix.lower()` */
  function LowerSuffix(p: Path): string {
    Lower(Monitor.Suffix(Name(p)))
  }

  function SkipResult(pathEntry: Option<string>): ProcessResult {
    ProcessResult(Skip, None, None, None, pathEntry)
  }

  /**
   * The second `try` block. `existing` is the set of local paths that exist;
   * `shouldGenerate` stands for `StrmGenerater.should_generate_strm` in
   * "full" mode with the STRM blacklist.
   */
  function Decide(e: Entry, loc: Located, s: Settings, existing: set<Path>,
                  shouldGenerate: (string, Option<int>) -> bool): Handled
  {
    var name := Name(loc.filePath);
    if s.panTransferEnabled && s.panTransferPaths != "" && GetRunTransferPath(s.panTransferPaths, loc.itemPath) then
      Handled(None, None)
    else if s.autoDownloadMediainfo && LowerSuffix(loc.filePath) in s.downloadExts then
      if loc.filePath in existing && s.overwriteMode == "never" then
        Handled(Some(SkipResult(None)), None)
      else if !Mediainfo.ShouldDownload(name, s.mediainfoBlacklist, s.mediainfoWhitelist).1 then
        Handled(Some(SkipResult(None)), None)
      else
        var pickcode := EntryPickcode(e);
        if pickcode == "" then
          Handled(Some(ProcessResult(Fail, Some(name), Some(NoPickcodeToDownload), None, None)), None)
        else
          Handled(Some(ProcessResult(Download, None, None, Some(DownloadInfo(pickcode, loc.filePath, loc.sha1)), None)), None)
    else if LowerSuffix(loc.filePath) !in s.rmtExts then
      Handled(Some(SkipResult(None)), None)
    else if !shouldGenerate(name, e.size) then
      Handled(Some(SkipResult(None)), None)
    else
      var pathEntry := if s.removeUnlessStrm then Some(ToString(loc.newFilePath)) else None;
      if loc.newFilePath in existing && s.overwriteMode == "never" then
        Handled(Some(SkipResult(pathEntry)), None)
      else
        var pickcode := EntryPickcode(e);
        var target := Some(ToString(loc.newFilePath));
        if pickcode == "" then
          Handled(Some(ProcessResult(Fail, target, Some(NoPickcode), None, pathEntry)), None)
        else if !ValidPickcode(pickcode) then
          Handled(Some(ProcessResult(Fail, target, Some(BadPickcode(pickcode)), None, pathEntry)), None)
        else
          Handled(Some(ProcessResult(Submitted, None, None, None, pathEntry)), Some(StrmJob(loc.newFilePath, pickcode, name)))
  }

  /** `__process_single_item` */
  function ProcessSingleItem(e: Entry, targetDir: Path, panMediaDir: string, s: Settings, existing: set<Path>,
                             shouldGenerate: (string, Option<int>) -> bool): Handled
  {
    match Locate(e, targetDir, panMediaDir)
    case Err(failure) => Handled(Some(failure), None)
    case Ok(None) => Handled(None, None)
    case Ok(Some(loc)) => Decide(e, loc, s, existing, shouldGenerate)
  }

  /** An item lacking a key `check_iter_path_data` requires fails, reported with `str(item)`, and queues nothing. */
  lemma {:induction false} IncompleteItemFails(e: Entry, targetDir: Path, panMediaDir: string, s: Settings,
                                               existing: set<Path>, g: (string, Option<int>) -> bool)
    requires e.path.None? || e.isDir.None? || e.sha1.None? || (e.pickcode.None? && e.pickCode.None?)
    ensures var h := ProcessSingleItem(e, targetDir, panMediaDir, s, existing, g);
      h.job.None? && h.result.Some? && h.result.value.status == Fail && h.result.value.path == Some(e.repr) &&
      h.result.value.message.Some? && h.result.value.message.value.KeyMissing?
  {
    var c := Http.CheckIterPathData(Keys(e));
    assert c.Err?;
  }

  /** A complete item that is a directory, or lies outside the media directory, is ignored. */
  lemma {:induction false} DirsAndOutsidersIgnored(e: Entry, targetDir: Path, panMediaDir: string, s: Settings,
                                                   existing: set<Path>, g: (string, Option<int>) -> bool)
    requires e.path.Some? && e.isDir.Some? && e.sha1.Some? && (e.pickcode.Some? || e.pickCode.Some?)
    requires e.isDir.value || !HasPrefix(e.path.value, panMediaDir)
    ensures ProcessSingleItem(e, targetDir, panMediaDir, s, existing, g) == Handled(None, None)
  {
    assert Http.CheckIterPathData(Keys(e)).Ok?;
  }

  /** The suffix of `stem + ".strm"` is ".strm" and its stem is `stem`, for a non-empty stem. */
  lemma {:induction false} StrmNameParts(stem: string)
    requires stem != ""
    ensures Monitor.Suffix(stem + ".strm") == ".strm"
    ensures Stem(stem + ".strm") == stem
  {
    var x := stem + ".strm";
    assert x[|stem|] == '.';
    var m := Monitor.LastIndexOf(x, '.');
    assert m.Some?;
    var r := m.value;
    assert r == |stem|;
    assert x[r..] == ".strm";
  }

  /**
   * `file_path.parent / (file_path.stem + ".strm")`: the same directory, the
   * last component replaced by the stem and ".strm", and the STRM file's own
   * suffix and stem are ".strm" and the media file's stem.
   */
  lemma {:induction false} StrmPathShape(filePath: Path)
    requires filePath.comps != [] && IsComponent(Name(filePath))
    ensures StrmPath(filePath) ==
      Path(filePath.absolute, filePath.comps[..|filePath.comps| - 1] + [Stem(Name(filePath)) + ".strm"])
    ensures Monitor.Suffix(Name(StrmPath(filePath))) == ".strm"
    ensures Stem(Name(StrmPath(filePath))) == Stem(Name(filePath))
  {
    var name := Name(filePath);
    var stem := Stem(name);
    var x := stem + ".strm";
    assert |stem| >= 1 by {
      if Monitor.Suffix(name) != [] {
        assert |Monitor.Suffix(name)| < |name|;
      }
    }
    assert stem == name[..|stem|];
    assert '/' !in x;
    assert IsComponent(x) by {
      assert x != "." by {
        assert |x| >= 6;
      }
    }
    assert ToString(Path(false, [x])) == x;
    ParseToString(Path(false, [x]));
    StrmNameParts(stem);
  }

  /** A located item passed every check that comes before the pickcode check. */
  predicate StrmStage(e: Entry, loc: Located, s: Settings, existing: set<Path>, g: (string, Option<int>) -> bool) {
    !(s.panTransferEnabled && s.panTransferPaths != "" && GetRunTransferPath(s.panTransferPaths, loc.itemPath)) &&
    !(s.autoDownloadMediainfo && LowerSuffix(loc.filePath) in s.downloadExts) &&
    LowerSuffix(loc.filePath) in s.rmtExts &&
    g(Name(loc.filePath), e.size) &&
    !(loc.newFilePath in existing && s.overwriteMode == "never")
  }

  lemma {:induction false} DecideStrm(e: Entry, loc: Located, s: Settings, existing: set<Path>, g: (string, Option<int>) -> bool)
    ensures var h := Decide(e, loc, s, existing, g);
      (h.job.Some? <==> StrmStage(e, loc, s, existing, g) && ValidPickcode(EntryPickcode(e))) &&
      (h.job.Some? ==>
        h.result == Some(ProcessResult(Submitted, None, None, None,
          if s.removeUnlessStrm then Some(ToString(loc.newFilePath)) else None)) &&
        h.job.value == StrmJob(loc.newFilePath, EntryPickcode(e), Name(loc.filePath)))
  {
  }

  /**
   * An STRM file is queued exactly when the item is located under the media
   * directory, passes every check before the pickcode, and has a pickcode of
   * 17 alphanumeric characters; it is then written next to the media file's
   * place under `target_dir`, named after the media file's stem.
   */
  lemma {:induction false} StrmQueuedExactly(e: Entry, targetDir: Path, panMediaDir: string, s: Settings,
                                             existing: set<Path>, g: (string, Option<int>) -> bool)
    ensures var h := ProcessSingleItem(e, targetDir, panMediaDir, s, existing, g);
      var l := Locate(e, targetDir, panMediaDir);
      h.job.Some? <==> l.Ok? && l.value.Some? && StrmStage(e, l.value.value, s, existing, g) && ValidPickcode(EntryPickcode(e))
    ensures var h := ProcessSingleItem(e, targetDir, panMediaDir, s, existing, g);
      h.job.Some? ==>
        h.result == Some(ProcessResult(Submitted, None, None, None,
          if s.removeUnlessStrm then Some(ToString(h.job.value.target)) else None)) &&
        h.job.value.pickcode == EntryPickcode(e) && ValidPickcode(h.job.value.pickcode) &&
        h.job.value.target == StrmPath(JoinPath(targetDir, RelativeTo(Parse(e.path.value), Parse(panMediaDir)).value))
  {
    var l := Locate(e, targetDir, panMediaDir);
    if l.Ok? && l.value.Some? {
      DecideStrm(e, l.value.value, s, existing, g);
    }
  }

  /**
   * The queued STRM file is `target_dir` joined with the item's path below
   * the media directory, its last component replaced by the stem and ".strm".
   */
  lemma {:induction false} StrmTargetPath(e: Entry, targetDir: Path, panMediaDir: string, s: Settings,
                                          existing: set<Path>, g: (string, Option<int>) -> bool)
    requires ProcessSingleItem(e, targetDir, panMediaDir, s, existing, g).job.Some?
    ensures e.path.Some? && RelativeTo(Parse(e.path.value), Parse(panMediaDir)).Some?
    ensures var rel := RelativeTo(Parse(e.path.value), Parse(panMediaDir)).value;
      var job := ProcessSingleItem(e, targetDir, panMediaDir, s, existing, g).job.value;
      rel.comps != [] ==>
        job.target == Path(targetDir.absolute,
          targetDir.comps + rel.comps[..|rel.comps| - 1] + [Stem(rel.comps[|rel.comps| - 1]) + ".strm"]) &&
        Monitor.Suffix(Name(job.target)) == ".strm" &&
        Stem(Name(job.target)) == Stem(rel.comps[|rel.comps| - 1])
  {
    StrmQueuedExactly(e, targetDir, panMediaDir, s, existing, g);
    var rel := RelativeTo(Parse(e.path.value), Parse(panMediaDir)).value;
    RelativeToNormal(Parse(e.path.value), Parse(panMediaDir));
    if rel.comps != [] {
      JoinedStrmPath(targetDir, rel);
    }
  }

  /** What `relative_to` returns for a parsed path is itself a parsed path. */
  lemma {:induction false} RelativeToNormal(p: Path, b: Path)
    requires Normal(p)
    requires RelativeTo(p, b).Some?
    ensures Normal(RelativeTo(p, b).value) && !RelativeTo(p, b).value.absolute
  {
    var r := RelativeTo(p, b).value;
    if r != p {
      assert forall i | 0 <= i < |r.comps| :: r.comps[i] == p.comps[i + |b.comps|];
    }
  }

  /** `base / rel` with its last component turned into an STRM name. */
  lemma {:induction false} JoinedStrmPath(base: Path, rel: Path)
    requires Normal(rel) && rel.comps != []
    requires !rel.absolute
    ensures var last := rel.comps[|rel.comps| - 1];
      StrmPath(JoinPath(base, rel)) ==
        Path(base.absolute, base.comps + rel.comps[..|rel.comps| - 1] + [Stem(last) + ".strm"]) &&
      Monitor.Suffix(Name(StrmPath(JoinPath(base, rel)))) == ".strm" &&
      Stem(Name(StrmPath(JoinPath(base, rel)))) == Stem(last)
  {
    var filePath := JoinPath(base, rel);
    assert filePath.comps == base.comps + rel.comps;
    assert Name(filePath) == rel.comps[|rel.comps| - 1];
    StrmPathShape(filePath);
    assert filePath.comps[..|filePath.comps| - 1] == base.comps + rel.comps[..|rel.comps| - 1];
  }

  /** Past every other check, a missing or malformed pickcode fails the item, naming the STRM path. */
  lemma {:induction false} BadPickcodeFails(e: Entry, targetDir: Path, panMediaDir: string, s: Settings,
                                            existing: set<Path>, g: (string, Option<int>) -> bool)
    requires Locate(e, targetDir, panMediaDir).Ok? && Locate(e, targetDir, panMediaDir).value.Some?
    requires StrmStage(e, Locate(e, targetDir, panMediaDir).value.value, s, existing, g)
    requires !ValidPickcode(EntryPickcode(e))
    ensures var h := ProcessSingleItem(e, targetDir, panMediaDir, s, existing, g);
      var loc := Locate(e, targetDir, panMediaDir).value.value;
      h.job.None? && h.result.Some? && h.result.value.status == Fail &&
      h.result.value.path == Some(ToString(loc.newFilePath)) &&
      h.result.value.message == Some(if EntryPickcode(e) == "" then NoPickcode else BadPickcode(EntryPickcode(e)))
  {
  }

  lemma {:induction false} DecideDownload(e: Entry, loc: Located, s: Settings, existing: set<Path>, g: (string, Option<int>) -> bool)
    ensures var h := Decide(e, loc, s, existing, g);
      (s.autoDownloadMediainfo && LowerSuffix(loc.filePath) in s.downloadExts ==> h.job.None?) &&
      (h.result.Some? && h.result.value.status == Download ==>
        s.autoDownloadMediainfo && LowerSuffix(loc.filePath) in s.downloadExts &&
        Mediainfo.ShouldDownload(Name(loc.filePath), s.mediainfoBlacklist, s.mediainfoWhitelist).1 &&
        h.result.value.data == Some(DownloadInfo(EntryPickcode(e), loc.filePath, loc.sha1)) &&
        EntryPickcode(e) != "")
  {
  }

  /**
   * A file whose suffix is a media-information extension, with automatic
   * download on, never gets an STRM file; when it is handed to the
   * downloader, the whitelist and blacklist allowed it and it has a pickcode.
   */
  lemma {:induction false} DownloadsOnlyMediainfo(e: Entry, targetDir: Path, panMediaDir: string, s: Settings,
                                                  existing: set<Path>, g: (string, Option<int>) -> bool)
    ensures var h := ProcessSingleItem(e, targetDir, panMediaDir, s, existing, g);
      var l := Locate(e, targetDir, panMediaDir);
      l.Ok? && l.value.Some? && s.autoDownloadMediainfo && LowerSuffix(l.value.value.filePath) in s.downloadExts ==>
        h.job.None?
    ensures var h := ProcessSingleItem(e, targetDir, panMediaDir, s, existing, g);
      var l := Locate(e, targetDir, panMediaDir);
      h.result.Some? && h.result.value.status == Download ==>
        l.Ok? && l.value.Some? && s.autoDownloadMediainfo && LowerSuffix(l.value.value.filePath) in s.downloadExts &&
        Mediainfo.ShouldDownload(Name(l.value.value.filePath), s.mediainfoBlacklist, s.mediainfoWhitelist).1 &&
        h.result.value.data == Some(DownloadInfo(EntryPickcode(e), l.value.value.filePath, e.sha1.value)) &&
        EntryPickcode(e) != ""
  {
    var l := Locate(e, targetDir, panMediaDir);
    if l.Ok? && l.value.Some? {
      DecideDownload(e, l.value.value, s, existing, g);
    }
  }
}
