/** From the files on disk, through the mirror, to the answer of the mirror's query. */
module MirrorAnswers {
  import opened Options
  import opened MirrorSync
  import Q = FrameQuery
  import A = FrameAnswers

  /** The folder name of each day, and what a metadata file's bytes parse to. */
  datatype Format = Format(folder: int -> string, parse: Bytes -> Option<Q.Row>)

  /** Where the metadata file of one frame lies. */
  function Place(format: Format, day: int, stamp: nat): Loc {
    FrameFile(format.folder(day) + "/" + Q.FileName(stamp))
  }

  /** The local store's tree is what lies on disk. */
  ghost predicate OnDisk(format: Format, disk: Disk, tree: Q.Tree) {
    forall day, e: Q.Entry :: day in tree && e in tree[day] <==>
      var at := Place(format, day, e.stamp); at in disk && e.row == format.parse(disk[at].data)
  }

  /** What the mirror reads of one blob: nothing when it cannot be decrypted or parsed. */
  function RowAt(secret: int, format: Format, store: map<string, Cipher>, key: string): Option<Q.Row> {
    match Recover(secret, store, key)
    case None => None
    case Some(bytes) => format.parse(bytes)
  }

  /** The listing of the store: each metadata blob once. */
  ghost predicate ListedFrom(secret: int, dirs: Dirs, format: Format, store: map<string, Cipher>, blobs: seq<Q.Blob>) {
    && (forall i, j :: 0 <= i < j < |blobs| ==> blobs[i] != blobs[j])
    && (forall b: Q.Blob :: b in blobs <==>
          var key := KeyOf(dirs, Place(format, b.day, b.file.stamp));
          key in store && b.file.row == RowAt(secret, format, store, key))
  }

  /** Every blob is that of a file still on disk. */
  ghost predicate NoStrays(dirs: Dirs, s: System) {
    forall k :: k in s.mirror.store ==> exists loc :: loc in s.disk && KeyOf(dirs, loc) == k
  }

  lemma {:induction false} UploadedFrom(secret: int, m: Mirror, items: seq<Upload>, io: Io, k: string)
    requires k in UploadAll(secret, m, items, io).store
    ensures k in m.store || exists u :: u in items && u.key == k
    decreases items
  {
    if items != [] {
      UploadedFrom(secret, UploadStep(secret, m, items[0], io), items[1..], io, k);
    }
  }

  lemma StepNoStrays(secret: int, dirs: Dirs, s: System, e: Event)
    requires NoStrays(dirs, s) && Sees(s, e) && !e.Remove?
    ensures NoStrays(dirs, EventStep(secret, dirs, s, e))
  {
    hide Sees, Plan, UploadAll, KeyOf;
    var t := EventStep(secret, dirs, s, e);
    forall k | k in t.mirror.store ensures exists loc :: loc in t.disk && KeyOf(dirs, loc) == k {
      if k in s.mirror.store {
        var loc :| loc in s.disk && KeyOf(dirs, loc) == k;
        assert loc in t.disk;
      } else {
        UploadedFrom(secret, s.mirror, PlanOf(dirs, s, e), e.io, k);
        var u :| u in PlanOf(dirs, s, e) && u.key == k;
        var loc := PlanFrom(dirs, s, e, u);
        assert loc in t.disk;
      }
    }
  }

  lemma {:induction false} RunNoStrays(secret: int, dirs: Dirs, s: System, events: seq<Event>, clock: int)
    requires NoStrays(dirs, s) && Orderly(secret, dirs, s, events, clock) && forall e :: e in events ==> !e.Remove?
    ensures NoStrays(dirs, Run(secret, dirs, s, events))
    decreases events
  {
    if events != [] {
      hide NoStrays, EventStep, Sees;
      var e := events[0];
      StepNoStrays(secret, dirs, s, e);
      RunNoStrays(secret, dirs, EventStep(secret, dirs, s, e), events[1..], if e.Write? then e.file.mtime else clock);
    }
  }

  /** With everything current and nothing stray, the store holds exactly the files on disk. */
  lemma StoreIsDisk(secret: int, dirs: Dirs, s: System, loc: Loc)
    requires Apart(dirs) && AllCurrent(secret, dirs, s) && NoStrays(dirs, s)
    ensures KeyOf(dirs, loc) in s.mirror.store <==> loc in s.disk
    ensures loc in s.disk ==> Recover(secret, s.mirror.store, KeyOf(dirs, loc)) == Some(s.disk[loc].data)
  {
    hide KeyOf, Comparable;
    if KeyOf(dirs, loc) in s.mirror.store {
      var other :| other in s.disk && KeyOf(dirs, other) == KeyOf(dirs, loc);
      KeysApart(dirs, loc, other);
    }
    if loc in s.disk {
      assert Current(secret, dirs, s, loc);
    }
  }

  lemma ListingMirrors(secret: int, dirs: Dirs, s: System, format: Format, tree: Q.Tree, blobs: seq<Q.Blob>)
    requires Apart(dirs) && AllCurrent(secret, dirs, s) && NoStrays(dirs, s)
    requires OnDisk(format, s.disk, tree) && ListedFrom(secret, dirs, format, s.mirror.store, blobs)
    ensures Q.Mirrors(tree, blobs)
  {
    hide KeyOf, Apart, AllCurrent, NoStrays, Recover, Place;
    forall b: Q.Blob ensures b in blobs <==> b.day in tree && b.file in tree[b.day] {
      StoreIsDisk(secret, dirs, s, Place(format, b.day, b.file.stamp));
    }
  }

  /** Main result, end to end: files are written with nondecreasing times and mirrored by scans without
      failures, none is removed, and blob names are unambiguous. After the last scan the mirror's query,
      which lists, decrypts and parses the blobs, and the local query over the files give the same rows in
      the same order for every limit of at least one, if and only if both windows agree. */
  lemma MirroredQueriesAgree(secret: int, dirs: Dirs, s: System, events: seq<Event>, clock: int, format: Format,
                             tree: Q.Tree, listing: seq<int>, blobs: seq<Q.Blob>, q: Q.Query, lower: Q.Lower)
    requires Apart(dirs) && Safe(secret, dirs, s) && NoStrays(dirs, s) && NotAfter(s, clock)
    requires Orderly(secret, dirs, s, events, clock) && forall e :: e in events ==> !e.Remove?
    requires events != [] && events[|events| - 1].Scan?
    requires var t := Run(secret, dirs, s, events);
             OnDisk(format, t.disk, tree) && ListedFrom(secret, dirs, format, t.mirror.store, blobs)
    requires Q.TreeOk(tree) && Q.Lists(tree, listing) && Q.NamesInOrder(tree)
    ensures A.AlikeForAllLimits(tree, listing, blobs, q, lower) <==> A.WindowsAgree(tree, q, lower)
  {
    hide *;
    OrderlyRunsRestore(secret, dirs, s, events, clock);
    RunNoStrays(secret, dirs, s, events, clock);
    ListingMirrors(secret, dirs, Run(secret, dirs, s, events), format, tree, blobs);
    A.QueriesAgreeExactly(tree, listing, blobs, q, lower);
  }
}
