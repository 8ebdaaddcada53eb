/** The incremental mirror: a scan uploads every local file at least as new as the high-water mark,
    encrypted under a key and bound to its blob name, and then raises the mark. */
module MirrorSync {
  import opened Collections
  import opened Options

  type Bytes = seq<int>

  datatype File = File(mtime: int, data: Bytes)

  /** What a directory walk reports: a path below the root, and the file found there. */
  datatype Entry = Entry(rel: string, mtime: int, data: Bytes)

  datatype Found = Found(full: string, rel: string, mtime: int, data: Bytes)

  datatype Upload = Upload(key: string, mtime: int, data: Bytes)

  /** A blob at rest: readable only with the secret, and only under the name it was sealed for. */
  datatype Cipher = Cipher(secret: int, name: string, plain: Bytes)

  /** How one upload ends: stored, refused by the store, or the file could not be read. */
  datatype Outcome = Stored | PutFailed | Unreadable

  type Io = string -> Outcome

  datatype Dirs = Dirs(frames: string, audio: string)

  datatype Mirror = Mirror(store: map<string, Cipher>, mark: int, uploaded: nat, failed: nat)

  const DEPUTIES := "deputies.json"
  const FRIENDS := "friends.json"

  // ---------------------------------------------------------------- blobs and blob names

  function Encrypt(secret: int, name: string, plain: Bytes): Cipher {
    Cipher(secret, name, plain)
  }

  function Decrypt(secret: int, name: string, blob: Cipher): Option<Bytes> {
    if blob.secret == secret && blob.name == name then Some(blob.plain) else None
  }

  function Recover(secret: int, store: map<string, Cipher>, name: string): Option<Bytes> {
    if name in store then Decrypt(secret, name, store[name]) else None
  }

  /** What is sealed opens with its own secret and under its own name only. */
  lemma SealedExactly(secret: int, name: string, plain: Bytes, other: int, at: string)
    ensures Recover(other, map[at := Encrypt(secret, name, plain)], at)
            == if other == secret && at == name then Some(plain) else None
  {
  }

  function WithSlash(dir: string): string {
    if dir != "" && dir[|dir| - 1] == '/' then dir else dir + "/"
  }

  function Join(dir: string, rel: string): string {
    WithSlash(dir) + rel
  }

  /** The folder is told from the text of the full path, not from the directory being walked. */
  function BlobKey(dirs: Dirs, full: string, rel: string): string {
    (if dirs.frames <= full then "frames" else "audio") + "/" + rel + ".enc"
  }

  function ConfigKey(name: string): string {
    "config/" + name + ".enc"
  }

  /** Between directory and file there is one slash more only where the directory does not end in one. */
  lemma JoinExactly(dir: string, rel: string)
    ensures Join(dir + "/", rel) == dir + "/" + rel
    ensures dir == "" || dir[|dir| - 1] != '/' ==> Join(dir, rel) == dir + "/" + rel
  {
    assert (dir + "/")[|dir|] == '/';
  }

  predicate Comparable(a: string, b: string) {
    a <= b || b <= a
  }

  /** No blob name stands for two different files below the directories. */
  ghost predicate KeysUnambiguous(dirs: Dirs) {
    forall r, q | r != "" && q != "" ::
      BlobKey(dirs, Join(dirs.frames, r), r) == BlobKey(dirs, Join(dirs.audio, q), q)
      ==> Join(dirs.frames, r) == Join(dirs.audio, q)
  }

  lemma KeySplits(s: string, r: string, t: string, q: string)
    requires s in ["frames", "audio"] && t in ["frames", "audio"]
    ensures s + "/" + r + ".enc" == t + "/" + q + ".enc" <==> s == t && r == q
  {
    if s + "/" + r + ".enc" == t + "/" + q + ".enc" {
      assert (s + "/" + r + ".enc")[0] == s[0] && (t + "/" + q + ".enc")[0] == t[0];
      assert s == t;
      assert |r| == |q|;
      forall i | 0 <= i < |r| ensures r[i] == q[i] {
        assert (s + "/" + r + ".enc")[|s| + 1 + i] == r[i];
        assert (t + "/" + q + ".enc")[|s| + 1 + i] == q[i];
      }
    }
  }

  lemma FramesKeyed(dirs: Dirs, r: string)
    ensures dirs.frames <= Join(dirs.frames, r)
  {
  }

  lemma JoinCancels(a: string, b: string, r: string)
    ensures Join(a, r) == Join(b, r) <==> WithSlash(a) == WithSlash(b)
  {
    if Join(a, r) == Join(b, r) {
      assert Join(a, r)[..|WithSlash(a)|] == WithSlash(a);
      assert Join(b, r)[..|WithSlash(b)|] == WithSlash(b);
    }
  }

  /** Exact: blob names are unambiguous when both directories are one, or when the frames directory
      and the audio directory with its slash are not textual prefixes of one another. */
  lemma KeysUnambiguousExactly(dirs: Dirs)
    ensures KeysUnambiguous(dirs)
            <==> WithSlash(dirs.frames) == WithSlash(dirs.audio)
                 || !Comparable(dirs.frames, WithSlash(dirs.audio))
  {
    var base := WithSlash(dirs.audio);
    if Comparable(dirs.frames, base) && WithSlash(dirs.frames) != base {
      var r := if dirs.frames <= base then "f" else dirs.frames[|base|..] + "f";
      assert dirs.frames <= Join(dirs.audio, r);
      FramesKeyed(dirs, r);
      JoinCancels(dirs.frames, dirs.audio, r);
      assert BlobKey(dirs, Join(dirs.frames, r), r) == BlobKey(dirs, Join(dirs.audio, r), r);
    }
    forall r, q |
      && r != "" && q != "" && (WithSlash(dirs.frames) == base || !Comparable(dirs.frames, base))
      && BlobKey(dirs, Join(dirs.frames, r), r) == BlobKey(dirs, Join(dirs.audio, q), q)
      ensures Join(dirs.frames, r) == Join(dirs.audio, q)
    {
      FramesKeyed(dirs, r);
      KeySplits("frames", r, if dirs.frames <= Join(dirs.audio, q) then "frames" else "audio", q);
      ApartNever(dirs, q);
    }
  }

  /** A failing pair of directories: the two files named `a` share one blob. */
  lemma PrefixSharesName()
    ensures var dirs := Dirs("/d/frames", "/d/frames-audio");
            var r, q := Join(dirs.frames, "a"), Join(dirs.audio, "a");
            r != q && BlobKey(dirs, r, "a") == BlobKey(dirs, q, "a")
  {
    assert "/d/frames" <= "/d/frames" + "-audio/a";
    assert "/d/frames-audio/a"[9] == '-';
  }

  lemma PrefixComparable(a: string, base: string, q: string)
    requires a <= base + q
    ensures Comparable(a, base)
  {
    if |a| <= |base| {
      assert a == (base + q)[..|a|] == base[..|a|];
    } else {
      assert base == (base + q)[..|base|] == a[..|base|];
    }
  }

  lemma ApartNever(dirs: Dirs, q: string)
    requires !Comparable(dirs.frames, WithSlash(dirs.audio)) || WithSlash(dirs.frames) == WithSlash(dirs.audio)
    ensures dirs.frames <= Join(dirs.audio, q) ==> WithSlash(dirs.frames) == WithSlash(dirs.audio)
  {
    hide Comparable, WithSlash;
    if dirs.frames <= Join(dirs.audio, q) {
      PrefixComparable(dirs.frames, WithSlash(dirs.audio), q);
    }
  }

  // ---------------------------------------------------------------- one scan

  function Newer(root: string, walk: seq<Entry>, start: int): seq<Found> {
    if walk == [] then []
    else
      var e := walk[0];
      if e.mtime < start then Newer(root, walk[1..], start)
      else [Found(Join(root, e.rel), e.rel, e.mtime, e.data)] + Newer(root, walk[1..], start)
  }

  function InsertByMtime(x: Found, s: seq<Found>): seq<Found> {
    if s == [] || x.mtime <= s[0].mtime then [x] + s else [s[0]] + InsertByMtime(x, s[1..])
  }

  /** The stable sort by modification time. */
  function SortByMtime(s: seq<Found>): seq<Found> {
    if s == [] then [] else InsertByMtime(s[0], SortByMtime(s[1..]))
  }

  function UploadOf(dirs: Dirs, f: Found): Upload {
    Upload(BlobKey(dirs, f.full, f.rel), f.mtime, f.data)
  }

  function UploadsOf(dirs: Dirs, found: seq<Found>): seq<Upload> {
    if found == [] then [] else [UploadOf(dirs, found[0])] + UploadsOf(dirs, found[1..])
  }

  /** The effect of one upload attempt; only a stored file counts towards the next mark. */
  function UploadStep(secret: int, m: Mirror, u: Upload, io: Io): Mirror {
    match io(u.key)
    case Unreadable => m
    case PutFailed => m.(failed := m.failed + 1)
    case Stored =>
      m.(store := m.store[u.key := Encrypt(secret, u.key, u.data)],
      uploaded := m.uploaded + 1,
      mark := if u.mtime > m.mark then u.mtime else m.mark)
  }

  function UploadAll(secret: int, m: Mirror, items: seq<Upload>, io: Io): Mirror
    decreases items
  {
    if items == [] then m else UploadAll(secret, UploadStep(secret, m, items[0], io), items[1..], io)
  }

  function ConfigItem(name: string, file: Option<File>, start: int): seq<Upload> {
    if file.Some? && file.value.mtime >= start
    then [Upload(ConfigKey(name), file.value.mtime, file.value.data)] else []
  }

  /** Everything one scan tries to upload, in order. */
  function Plan(dirs: Dirs, frames: seq<Entry>, audio: seq<Entry>, deputies: Option<File>, friends: Option<File>,
                start: int): seq<Upload> {
    UploadsOf(dirs, SortByMtime(Newer(dirs.frames, frames, start)) + SortByMtime(Newer(dirs.audio, audio, start)))
    + (ConfigItem(DEPUTIES, deputies, start) + ConfigItem(FRIENDS, friends, start))
  }

  lemma UploadAllCat(secret: int, m: Mirror, a: seq<Upload>, b: seq<Upload>, io: Io)
    ensures UploadAll(secret, m, a + b, io) == UploadAll(secret, UploadAll(secret, m, a, io), b, io)
    decreases a
  {
    if a == [] {
      assert a + b == b;
    } else {
      assert (a + b)[0] == a[0] && (a + b)[1..] == a[1..] + b;
      UploadAllCat(secret, UploadStep(secret, m, a[0], io), a[1..], b, io);
    }
  }

  lemma UploadAllSnoc(secret: int, m: Mirror, a: seq<Upload>, x: Upload, io: Io)
    ensures UploadAll(secret, m, a + [x], io) == UploadStep(secret, UploadAll(secret, m, a, io), x, io)
  {
    UploadAllCat(secret, m, a, [x], io);
    assert [x][1..] == [];
  }

  lemma UploadsSnoc(dirs: Dirs, found: seq<Found>, x: Found)
    ensures UploadsOf(dirs, found + [x]) == UploadsOf(dirs, found) + [UploadOf(dirs, x)]
  {
    if found == [] {
      assert found + [x] == [x] && [x][1..] == [];
    } else {
      assert (found + [x])[0] == found[0] && (found + [x])[1..] == found[1..] + [x];
      UploadsSnoc(dirs, found[1..], x);
    }
  }

  lemma NewerSnoc(root: string, walk: seq<Entry>, e: Entry, start: int)
    ensures Newer(root, walk + [e], start)
            == if e.mtime < start then Newer(root, walk, start)
               else Newer(root, walk, start) + [Found(Join(root, e.rel), e.rel, e.mtime, e.data)]
  {
    if walk == [] {
      assert walk + [e] == [e] && [e][1..] == [];
    } else {
      assert (walk + [e])[0] == walk[0] && (walk + [e])[1..] == walk[1..] + [e];
      NewerSnoc(root, walk[1..], e, start);
    }
  }

  class Syncer {
    const secret: int
    const dirs: Dirs
    var store: map<string, Cipher>
    var mark: int
    var uploaded: nat
    var failed: nat

    function Contents(): (m: Mirror)
      reads this
    {
      Mirror(store, mark, uploaded, failed)
    }

    constructor (secret: int, dirs: Dirs, mark: int)
      ensures this.secret == secret && this.dirs == dirs && Contents() == Mirror(map[], mark, 0, 0)
    {
      this.secret, this.dirs, this.mark := secret, dirs, mark;
      store, uploaded, failed := map[], 0, 0;
    }

    /** Walk a directory, keep what is at least as new as `start`, oldest first. */
    static method ScanDir(root: string, walk: seq<Entry>, start: int) returns (found: seq<Found>)
      ensures found == SortByMtime(Newer(root, walk, start))
    {
      found := [];
      for i := 0 to |walk|
        invariant found == Newer(root, walk[..i], start)
      {
        NewerSnoc(root, walk[..i], walk[i], start);
        assert walk[..i + 1] == walk[..i] + [walk[i]];
        if walk[i].mtime < start {
          continue;
        }
        found := found + [Found(Join(root, walk[i].rel), walk[i].rel, walk[i].mtime, walk[i].data)];
      }
      assert walk[..|walk|] == walk;
      found := SortByMtime(found);
    }

    /** One upload. `high` is the mark reached so far by the scan, which the object does not yet hold. */
    method UploadOne(u: Upload, high: int, io: Io) returns (reached: int)
      modifies this
      ensures mark == old(mark)
      ensures Contents().(mark := reached) == UploadStep(secret, old(Contents()).(mark := high), u, io)
      ensures io(u.key).Stored? ==>
                && store == old(store)[u.key := Cipher(secret, u.key, u.data)]
                && uploaded == old(uploaded) + 1 && failed == old(failed)
                && reached == if u.mtime <= high then high else u.mtime
      ensures io(u.key).PutFailed? ==>
                store == old(store) && uploaded == old(uploaded) && failed == old(failed) + 1 && reached == high
      ensures io(u.key).Unreadable? ==>
                store == old(store) && uploaded == old(uploaded) && failed == old(failed) && reached == high
    {
      reached := high;
      match io(u.key)
      case Unreadable => return;
      case PutFailed => failed := failed + 1;
      case Stored =>
        store := store[u.key := Encrypt(secret, u.key, u.data)];
        uploaded := uploaded + 1;
        if u.mtime > high {
          reached := u.mtime;
        }
    }

    /** The first loop: the files found, in order. */
    method UploadFound(found: seq<Found>, start: int, io: Io) returns (high: int)
      modifies this
      ensures mark == old(mark)
      ensures Contents().(mark := high)
              == UploadAll(secret, old(Contents()).(mark := start), UploadsOf(dirs, found), io)
    {
      hide BlobKey, UploadStep;
      ghost var was := Contents().(mark := start);
      high := start;
      for i := 0 to |found|
        invariant mark == old(mark)
        invariant Contents().(mark := high) == UploadAll(secret, was, UploadsOf(dirs, found[..i]), io)
      {
        assert found[..i + 1] == found[..i] + [found[i]];
        UploadsSnoc(dirs, found[..i], found[i]);
        UploadAllSnoc(secret, was, UploadsOf(dirs, found[..i]), UploadOf(dirs, found[i]), io);
        high := UploadOne(UploadOf(dirs, found[i]), high, io);
      }
      assert found[..|found|] == found;
    }

    /** The second loop: the configuration files. */
    method UploadConfigs(configs: seq<Upload>, start: int, io: Io) returns (high: int)
      modifies this
      ensures mark == old(mark)
      ensures Contents().(mark := high) == UploadAll(secret, old(Contents()).(mark := start), configs, io)
    {
      hide UploadStep;
      ghost var was := Contents().(mark := start);
      high := start;
      for i := 0 to |configs|
        invariant mark == old(mark)
        invariant Contents().(mark := high) == UploadAll(secret, was, configs[..i], io)
      {
        assert configs[..i + 1] == configs[..i] + [configs[i]];
        UploadAllSnoc(secret, was, configs[..i], configs[i], io);
        high := UploadOne(configs[i], high, io);
      }
      assert configs[..|configs|] == configs;
    }

    /** One scan: the new state is the old one after the plan computed from the old mark. */
    method ScanAndUpload(frames: seq<Entry>, audio: seq<Entry>, deputies: Option<File>, friends: Option<File>, io: Io)
      modifies this
      ensures Contents() == UploadAll(secret, old(Contents()),
                                      Plan(dirs, frames, audio, deputies, friends, old(mark)), io)
    {
      hide SortByMtime, Newer, Join, BlobKey, UploadAll, UploadsOf;
      var start := mark;
      var framesFound := ScanDir(dirs.frames, frames, start);
      var audioFound := ScanDir(dirs.audio, audio, start);
      var configs := ConfigItem(DEPUTIES, deputies, start) + ConfigItem(FRIENDS, friends, start);
      UploadAllCat(secret, Contents(), UploadsOf(dirs, framesFound + audioFound), configs, io);
      var high := UploadFound(framesFound + audioFound, start, io);
      high := UploadConfigs(configs, high, io);
      mark := high;
    }
  }

  // ---------------------------------------------------------------- what a plan does to the mirror

  /** Two uploads under one name carry the same bytes. */
  ghost predicate Functional(items: seq<Upload>) {
    forall a, b :: a in items && b in items && a.key == b.key ==> a.data == b.data
  }

  lemma {:induction false} UploadAllMark(secret: int, m: Mirror, items: seq<Upload>, io: Io)
    ensures var after := UploadAll(secret, m, items, io);
            && after.mark >= m.mark
            && (forall u :: u in items && io(u.key).Stored? ==> u.mtime <= after.mark)
            && (after.mark == m.mark || exists u :: u in items && io(u.key).Stored? && u.mtime == after.mark)
    decreases items
  {
    if items != [] {
      var next := UploadStep(secret, m, items[0], io);
      UploadAllMark(secret, next, items[1..], io);
      assert forall u :: u in items <==> u == items[0] || u in items[1..];
    }
  }

  ghost function Ending(items: seq<Upload>, io: Io, n: nat, outcome: Outcome): set<nat>
    requires n <= |items|
  {
    set i: nat | i < n && io(items[i].key) == outcome
  }

  /** A scan counts each file it stores and each one refused, and no unreadable one. */
  lemma {:induction false} UploadAllCounts(secret: int, m: Mirror, items: seq<Upload>, io: Io, n: nat)
    requires n <= |items|
    ensures var after := UploadAll(secret, m, items[..n], io);
            && after.uploaded == m.uploaded + |Ending(items, io, n, Stored)|
            && after.failed == m.failed + |Ending(items, io, n, PutFailed)|
  {
    if n > 0 {
      UploadAllCounts(secret, m, items, io, n - 1);
      assert items[..n] == items[..n - 1] + [items[n - 1]];
      UploadAllSnoc(secret, m, items[..n - 1], items[n - 1], io);
      hide UploadAll;
      EndingMore(items, io, n, Stored);
      EndingMore(items, io, n, PutFailed);
    }
  }

  lemma EndingMore(items: seq<Upload>, io: Io, n: nat, outcome: Outcome)
    requires 0 < n <= |items|
    ensures |Ending(items, io, n, outcome)|
            == |Ending(items, io, n - 1, outcome)| + if io(items[n - 1].key) == outcome then 1 else 0
  {
    Grown(Ending(items, io, n - 1, outcome), Ending(items, io, n, outcome), n - 1, io(items[n - 1].key) == outcome);
  }

  lemma {:induction false} UploadAllKeeps(secret: int, m: Mirror, items: seq<Upload>, io: Io, k: string)
    requires forall u :: u in items && u.key == k ==> !io(k).Stored?
    ensures k in UploadAll(secret, m, items, io).store <==> k in m.store
    ensures k in m.store ==> UploadAll(secret, m, items, io).store[k] == m.store[k]
    decreases items
  {
    if items != [] {
      UploadAllKeeps(secret, UploadStep(secret, m, items[0], io), items[1..], io, k);
    }
  }

  lemma {:induction false} UploadAllStores(secret: int, m: Mirror, items: seq<Upload>, io: Io, u: Upload)
    requires Functional(items) && u in items && io(u.key).Stored?
    ensures var after := UploadAll(secret, m, items, io);
            u.key in after.store && after.store[u.key] == Encrypt(secret, u.key, u.data)
    decreases items
  {
    var next := UploadStep(secret, m, items[0], io);
    if exists v :: v in items[1..] && v.key == u.key {
      var v :| v in items[1..] && v.key == u.key;
      UploadAllStores(secret, next, items[1..], io, v);
    } else {
      assert u == items[0];
      UploadAllKeeps(secret, next, items[1..], io, u.key);
    }
  }

  lemma {:induction false} SortSame(s: seq<Found>, x: Found)
    ensures x in SortByMtime(s) <==> x in s
  {
    if s != [] {
      SortSame(s[1..], x);
      InsertSame(s[0], SortByMtime(s[1..]), x);
    }
  }

  lemma {:induction false} InsertSame(y: Found, s: seq<Found>, x: Found)
    ensures x in InsertByMtime(y, s) <==> x == y || x in s
  {
    if s != [] && y.mtime > s[0].mtime {
      InsertSame(y, s[1..], x);
      assert x in s <==> x == s[0] || x in s[1..];
    }
  }

  // ---------------------------------------------------------------- disks and runs

  datatype ConfigName = Deputies | Friends

  /** A mirrored place on the local disk. */
  datatype Loc = FrameFile(rel: string) | AudioFile(rel: string) | ConfigFile(which: ConfigName)

  type Disk = map<Loc, File>

  function KeyOf(dirs: Dirs, loc: Loc): string {
    match loc
    case FrameFile(rel) => BlobKey(dirs, Join(dirs.frames, rel), rel)
    case AudioFile(rel) => BlobKey(dirs, Join(dirs.audio, rel), rel)
    case ConfigFile(which) => ConfigKey(if which.Deputies? then DEPUTIES else FRIENDS)
  }

  function Lookup(disk: Disk, loc: Loc): Option<File> {
    if loc in disk then Some(disk[loc]) else None
  }

  /** A walk reports exactly the files below the directory, in any order. */
  ghost predicate Walks(disk: Disk, at: string -> Loc, walk: seq<Entry>) {
    forall e: Entry :: e in walk <==> at(e.rel) in disk && disk[at(e.rel)] == File(e.mtime, e.data)
  }

  datatype Event =
    | Write(loc: Loc, file: File)
    | Remove(loc: Loc)
    | Scan(frames: seq<Entry>, audio: seq<Entry>, io: Io)

  datatype System = System(disk: Disk, mirror: Mirror)

  function EventStep(secret: int, dirs: Dirs, s: System, e: Event): System {
    match e
    case Write(loc, file) => s.(disk := s.disk[loc := file])
    case Remove(loc) => s.(disk := s.disk - {loc})
    case Scan(frames, audio, io) =>
      s.(mirror := UploadAll(secret, s.mirror,
        Plan(dirs, frames, audio, Lookup(s.disk, ConfigFile(Deputies)), Lookup(s.disk, ConfigFile(Friends)),
             s.mirror.mark), io))
  }

  /** The walks of a scan see the disk as it is. */
  ghost predicate Sees(s: System, e: Event) {
    e.Scan? ==> Walks(s.disk, r => FrameFile(r), e.frames) && Walks(s.disk, r => AudioFile(r), e.audio)
  }

  predicate Apart(dirs: Dirs) {
    !Comparable(dirs.frames, WithSlash(dirs.audio))
  }

  /** The bytes now on disk can be read back from the store. */
  predicate Current(secret: int, dirs: Dirs, s: System, loc: Loc)
    requires loc in s.disk
  {
    Recover(secret, s.mirror.store, KeyOf(dirs, loc)) == Some(s.disk[loc].data)
  }

  ghost predicate AllCurrent(secret: int, dirs: Dirs, s: System) {
    forall loc :: loc in s.disk ==> Current(secret, dirs, s, loc)
  }

  /** Whatever the next scan will skip is already current. */
  ghost predicate Safe(secret: int, dirs: Dirs, s: System) {
    forall loc :: loc in s.disk && s.disk[loc].mtime < s.mirror.mark ==> Current(secret, dirs, s, loc)
  }

  /** Different places never share a blob name. */
  lemma KeysApart(dirs: Dirs, a: Loc, b: Loc)
    requires Apart(dirs)
    ensures KeyOf(dirs, a) == KeyOf(dirs, b) <==> a == b
  {
    hide Comparable;
    KeyHead(dirs, a);
    KeyHead(dirs, b);
    if !a.ConfigFile? && !b.ConfigFile? {
      KeySplits(if a.FrameFile? then "frames" else "audio", a.rel, if b.FrameFile? then "frames" else "audio", b.rel);
    } else if a.ConfigFile? && b.ConfigFile? {
      assert ConfigKey(DEPUTIES)[7] == 'd' && ConfigKey(FRIENDS)[7] == 'f';
    }
  }

  /** Where the blobs lie, when the directories are apart. */
  lemma KeysExactly(dirs: Dirs, rel: string)
    requires Apart(dirs)
    ensures KeyOf(dirs, FrameFile(rel)) == "frames/" + rel + ".enc"
    ensures KeyOf(dirs, AudioFile(rel)) == "audio/" + rel + ".enc"
    ensures KeyOf(dirs, ConfigFile(Deputies)) == "config/deputies.json.enc"
    ensures KeyOf(dirs, ConfigFile(Friends)) == "config/friends.json.enc"
  {
    FramesKeyed(dirs, rel);
    ApartNever(dirs, rel);
    ApartDiffers(dirs);
    hide WithSlash, Comparable, Join;
  }

  lemma ApartDiffers(dirs: Dirs)
    requires Apart(dirs)
    ensures WithSlash(dirs.frames) != WithSlash(dirs.audio)
  {
    assert dirs.frames <= WithSlash(dirs.frames);
  }

  lemma KeyHead(dirs: Dirs, a: Loc)
    requires Apart(dirs)
    ensures KeyOf(dirs, a)[..1] == match a case FrameFile(_) => "f" case AudioFile(_) => "a" case ConfigFile(_) => "c"
    ensures a.FrameFile? ==> KeyOf(dirs, a) == "frames" + "/" + a.rel + ".enc"
    ensures a.AudioFile? ==> KeyOf(dirs, a) == "audio" + "/" + a.rel + ".enc"
  {
    match a
    case FrameFile(r) => FramesKeyed(dirs, r);
    case AudioFile(r) =>
      ApartNever(dirs, r);
      ApartDiffers(dirs);
    case ConfigFile(_) =>
  }

  function PendingUpload(dirs: Dirs, disk: Disk, loc: Loc): Upload
    requires loc in disk
  {
    Upload(KeyOf(dirs, loc), disk[loc].mtime, disk[loc].data)
  }

  // ---------------------------------------------------------------- the plan covers what is new

  lemma {:induction false} NewerHas(root: string, walk: seq<Entry>, start: int, e: Entry)
    requires e in walk && e.mtime >= start
    ensures Found(Join(root, e.rel), e.rel, e.mtime, e.data) in Newer(root, walk, start)
  {
    if e != walk[0] {
      NewerHas(root, walk[1..], start, e);
    }
  }

  lemma {:induction false} NewerFrom(root: string, walk: seq<Entry>, start: int, x: Found) returns (e: Entry)
    requires x in Newer(root, walk, start)
    ensures e in walk && e.mtime >= start && x == Found(Join(root, e.rel), e.rel, e.mtime, e.data)
  {
    e := walk[0];
    if e.mtime < start || x != Found(Join(root, e.rel), e.rel, e.mtime, e.data) {
      e := NewerFrom(root, walk[1..], start, x);
    }
  }

  lemma {:induction false} UploadsHas(dirs: Dirs, found: seq<Found>, x: Found)
    requires x in found
    ensures UploadOf(dirs, x) in UploadsOf(dirs, found)
  {
    if x != found[0] {
      UploadsHas(dirs, found[1..], x);
    }
  }

  lemma {:induction false} UploadsFrom(dirs: Dirs, found: seq<Found>, u: Upload) returns (x: Found)
    requires u in UploadsOf(dirs, found)
    ensures x in found && u == UploadOf(dirs, x)
  {
    x := found[0];
    if u != UploadOf(dirs, x) {
      x := UploadsFrom(dirs, found[1..], u);
    }
  }

  function PlanOf(dirs: Dirs, s: System, e: Event): seq<Upload>
    requires e.Scan?
  {
    Plan(dirs, e.frames, e.audio, Lookup(s.disk, ConfigFile(Deputies)), Lookup(s.disk, ConfigFile(Friends)),
         s.mirror.mark)
  }

  /** What is new is in the plan, and nothing else is. */
  lemma PlanHas(dirs: Dirs, s: System, e: Event, loc: Loc)
    requires e.Scan? && Sees(s, e) && loc in s.disk && s.disk[loc].mtime >= s.mirror.mark
    ensures PendingUpload(dirs, s.disk, loc) in PlanOf(dirs, s, e)
  {
    hide Join, BlobKey, Newer, SortByMtime, UploadsOf;
    var start, f := s.mirror.mark, s.disk[loc];
    var frames, audio := SortByMtime(Newer(dirs.frames, e.frames, start)),
        SortByMtime(Newer(dirs.audio, e.audio, start));
    match loc
    case FrameFile(rel) =>
      NewerHas(dirs.frames, e.frames, start, Entry(rel, f.mtime, f.data));
      var x := Found(Join(dirs.frames, rel), rel, f.mtime, f.data);
      SortSame(Newer(dirs.frames, e.frames, start), x);
      UploadsHas(dirs, frames + audio, x);
    case AudioFile(rel) =>
      NewerHas(dirs.audio, e.audio, start, Entry(rel, f.mtime, f.data));
      var x := Found(Join(dirs.audio, rel), rel, f.mtime, f.data);
      SortSame(Newer(dirs.audio, e.audio, start), x);
      UploadsHas(dirs, frames + audio, x);
    case ConfigFile(_) =>
  }

  lemma PlanFrom(dirs: Dirs, s: System, e: Event, u: Upload) returns (loc: Loc)
    requires e.Scan? && Sees(s, e) && u in PlanOf(dirs, s, e)
    ensures loc in s.disk && s.disk[loc].mtime >= s.mirror.mark && u == PendingUpload(dirs, s.disk, loc)
  {
    hide Join, BlobKey, Newer, SortByMtime, UploadsOf;
    var start := s.mirror.mark;
    var frames, audio := SortByMtime(Newer(dirs.frames, e.frames, start)),
        SortByMtime(Newer(dirs.audio, e.audio, start));
    if u in UploadsOf(dirs, frames + audio) {
      var x := UploadsFrom(dirs, frames + audio, u);
      SortSame(Newer(dirs.frames, e.frames, start), x);
      SortSame(Newer(dirs.audio, e.audio, start), x);
      if x in frames {
        var entry := NewerFrom(dirs.frames, e.frames, start, x);
        loc := FrameFile(entry.rel);
      } else {
        var entry := NewerFrom(dirs.audio, e.audio, start, x);
        loc := AudioFile(entry.rel);
      }
    } else if u in ConfigItem(DEPUTIES, Lookup(s.disk, ConfigFile(Deputies)), start) {
      loc := ConfigFile(Deputies);
    } else {
      loc := ConfigFile(Friends);
    }
  }

  lemma PlanFunctional(dirs: Dirs, s: System, e: Event)
    requires Apart(dirs) && e.Scan? && Sees(s, e)
    ensures Functional(PlanOf(dirs, s, e))
  {
    hide Plan, KeyOf, Walks, Comparable;
    var items := PlanOf(dirs, s, e);
    forall a, b | a in items && b in items && a.key == b.key
      ensures a.data == b.data
    {
      var p := PlanFrom(dirs, s, e, a);
      var q := PlanFrom(dirs, s, e, b);
      KeysApart(dirs, p, q);
    }
  }

  /** One scan, file by file: a file at or above the mark whose upload is stored becomes current;
      for every other file nothing changes. */
  lemma ScanEffect(secret: int, dirs: Dirs, s: System, e: Event, loc: Loc)
    requires Apart(dirs) && e.Scan? && Sees(s, e) && loc in s.disk
    ensures var t := EventStep(secret, dirs, s, e);
            && t.disk == s.disk
            && (Current(secret, dirs, t, loc)
                <==> Current(secret, dirs, s, loc)
                     || Stores(dirs, s, e, loc))
  {
    hide Plan, KeyOf, Walks, Comparable, UploadAll;
    var items := PlanOf(dirs, s, e);
    var k := KeyOf(dirs, loc);
    PlanFunctional(dirs, s, e);
    if s.disk[loc].mtime >= s.mirror.mark && e.io(k).Stored? {
      PlanHas(dirs, s, e, loc);
      UploadAllStores(secret, s.mirror, items, e.io, PendingUpload(dirs, s.disk, loc));
    } else {
      forall u | u in items && u.key == k
        ensures !e.io(k).Stored?
      {
        var p := PlanFrom(dirs, s, e, u);
        KeysApart(dirs, p, loc);
      }
      UploadAllKeeps(secret, s.mirror, items, e.io, k);
    }
  }

  /** The scan stores the file: it is not older than the mark, and its upload succeeds. */
  predicate Stores(dirs: Dirs, s: System, e: Event, loc: Loc)
    requires e.Scan?
  {
    loc in s.disk && s.disk[loc].mtime >= s.mirror.mark && e.io(KeyOf(dirs, loc)).Stored?
  }

  /** The new mark is the latest time among the old mark and the files the scan stores. */
  lemma ScanMark(secret: int, dirs: Dirs, s: System, e: Event)
    requires e.Scan? && Sees(s, e)
    ensures var t := EventStep(secret, dirs, s, e);
            && t.mirror.mark >= s.mirror.mark
            && (forall loc :: Stores(dirs, s, e, loc) ==> s.disk[loc].mtime <= t.mirror.mark)
            && (t.mirror.mark == s.mirror.mark
                || exists loc :: Stores(dirs, s, e, loc) && s.disk[loc].mtime == t.mirror.mark)
  {
    hide Plan, KeyOf, Walks, UploadAll;
    var items := PlanOf(dirs, s, e);
    UploadAllMark(secret, s.mirror, items, e.io);
    var t := EventStep(secret, dirs, s, e);
    forall loc | Stores(dirs, s, e, loc)
      ensures s.disk[loc].mtime <= t.mirror.mark
    {
      PlanHas(dirs, s, e, loc);
      assert PendingUpload(dirs, s.disk, loc).key == KeyOf(dirs, loc);
    }
    if t.mirror.mark != s.mirror.mark {
      var u :| u in items && e.io(u.key).Stored? && u.mtime == t.mirror.mark;
      var loc := PlanFrom(dirs, s, e, u);
      assert Stores(dirs, s, e, loc);
    }
  }

  // ---------------------------------------------------------------- the main results

  ghost predicate FailureFree(io: Io) {
    forall k :: io(k).Stored?
  }

  /** Main result, exact: after a failure-free scan everything on disk can be restored exactly when
      the mirror was safe before it. */
  lemma CleanScanExactly(secret: int, dirs: Dirs, s: System, e: Event)
    requires Apart(dirs) && e.Scan? && Sees(s, e) && FailureFree(e.io)
    ensures AllCurrent(secret, dirs, EventStep(secret, dirs, s, e)) <==> Safe(secret, dirs, s)
  {
    hide Current, Sees, EventStep, Comparable, KeyOf;
    StepDisk(secret, dirs, s, e);
    forall loc | loc in s.disk
      ensures Current(secret, dirs, EventStep(secret, dirs, s, e), loc)
              <==> Current(secret, dirs, s, loc) || s.disk[loc].mtime >= s.mirror.mark
    {
      assert Stores(dirs, s, e, loc) <==> s.disk[loc].mtime >= s.mirror.mark;
      ScanEffect(secret, dirs, s, e, loc);
    }
  }

  /** The local disk: a write puts one file, a removal takes one away, and neither touches the store. */
  lemma DiskExactly(secret: int, dirs: Dirs, s: System, loc: Loc, file: File, other: Loc)
    ensures var t, u := EventStep(secret, dirs, s, Write(loc, file)), EventStep(secret, dirs, s, Remove(loc));
            && Lookup(t.disk, loc) == Some(file) && Lookup(u.disk, loc) == None
            && (other != loc ==> Lookup(t.disk, other) == Lookup(u.disk, other) == Lookup(s.disk, other))
            && t.mirror == u.mirror == s.mirror
  {
  }

  lemma StepDisk(secret: int, dirs: Dirs, s: System, e: Event)
    requires e.Scan?
    ensures EventStep(secret, dirs, s, e).disk == s.disk
  {
  }

  /** The file is neither older than the mark before the scan nor than any file the scan stores. */
  ghost predicate NotPassed(dirs: Dirs, s: System, e: Event, loc: Loc)
    requires e.Scan? && loc in s.disk
  {
    && s.disk[loc].mtime >= s.mirror.mark
    && forall other :: Stores(dirs, s, e, other) ==> s.disk[other].mtime <= s.disk[loc].mtime
  }

  lemma PassedExactly(secret: int, dirs: Dirs, s: System, e: Event, loc: Loc)
    requires e.Scan? && Sees(s, e) && loc in s.disk
    ensures NotPassed(dirs, s, e, loc) <==> s.disk[loc].mtime >= EventStep(secret, dirs, s, e).mirror.mark
  {
    hide Sees, EventStep, Stores;
    ScanMark(secret, dirs, s, e);
  }

  /** Exact, for any mix of failures: after a scan the mirror is safe if and only if every file whose bytes
      the store neither held before nor gets now is as new as the old mark and as every file the scan
      stores. */
  lemma FaultyScanExactly(secret: int, dirs: Dirs, s: System, e: Event)
    requires Apart(dirs) && e.Scan? && Sees(s, e)
    ensures Safe(secret, dirs, EventStep(secret, dirs, s, e))
            <==> forall loc :: loc in s.disk ==>
                   Current(secret, dirs, s, loc) || Stores(dirs, s, e, loc) || NotPassed(dirs, s, e, loc)
  {
    hide Current, Sees, EventStep, Comparable, Stores, NotPassed;
    StepDisk(secret, dirs, s, e);
    forall loc | loc in s.disk
      ensures Current(secret, dirs, EventStep(secret, dirs, s, e), loc)
              <==> Current(secret, dirs, s, loc) || Stores(dirs, s, e, loc)
      ensures NotPassed(dirs, s, e, loc) <==> s.disk[loc].mtime >= EventStep(secret, dirs, s, e).mirror.mark
    {
      ScanEffect(secret, dirs, s, e, loc);
      PassedExactly(secret, dirs, s, e, loc);
    }
  }

  /** A store that refuses one blob. */
  function RefuseOnly(name: string): Io {
    k => if k == name then PutFailed else Stored
  }

  lemma TwoFilesSeen(s: System, x: Bytes, y: Bytes, io: Io)
    requires s.disk == map[FrameFile("a") := File(1, x), FrameFile("b") := File(2, y)]
    ensures Sees(s, Scan([Entry("a", 1, x), Entry("b", 2, y)], [], io))
  {
  }

  /** A reachable failing scan: of two files written one after the other the store refuses the older and
      takes the newer; the mark then passes the older file, which is nowhere in the store. */
  lemma RefusedFileIsPassed(secret: int, dirs: Dirs, x: Bytes, y: Bytes)
    requires Apart(dirs)
    ensures var a, b := FrameFile("a"), FrameFile("b");
            var s := Run(secret, dirs, System(map[], Mirror(map[], 0, 0, 0)),
                         [Write(a, File(1, x)), Write(b, File(2, y))]);
            var scan := Scan([Entry("a", 1, x), Entry("b", 2, y)], [], RefuseOnly(KeyOf(dirs, a)));
            Sees(s, scan) && Safe(secret, dirs, s) && !Safe(secret, dirs, EventStep(secret, dirs, s, scan))
  {
    var a, b := FrameFile("a"), FrameFile("b");
    var s := System(map[a := File(1, x), b := File(2, y)], Mirror(map[], 0, 0, 0));
    var scan := Scan([Entry("a", 1, x), Entry("b", 2, y)], [], RefuseOnly(KeyOf(dirs, a)));
    TwoWrites(secret, dirs, a, b, File(1, x), File(2, y));
    TwoFilesSeen(s, x, y, scan.io);
    KeysApart(dirs, a, b);
    assert !Current(secret, dirs, s, a) && Safe(secret, dirs, s);
    hide KeyOf, EventStep, Sees, Run, Comparable, Current;
    assert Stores(dirs, s, scan, b) && !Stores(dirs, s, scan, a) && !NotPassed(dirs, s, scan, a);
    FaultyScanExactly(secret, dirs, s, scan);
  }

  lemma TwoWrites(secret: int, dirs: Dirs, a: Loc, b: Loc, f: File, g: File)
    requires a != b
    ensures Run(secret, dirs, System(map[], Mirror(map[], 0, 0, 0)), [Write(a, f), Write(b, g)])
            == System(map[a := f, b := g], Mirror(map[], 0, 0, 0))
  {
    var s := System(map[], Mirror(map[], 0, 0, 0));
    assert [Write(a, f), Write(b, g)][1..] == [Write(b, g)] && [Write(b, g)][1..] == [];
    var once := EventStep(secret, dirs, s, Write(a, f));
    var twice := EventStep(secret, dirs, once, Write(b, g));
    assert twice.disk == map[a := f, b := g];
    assert Run(secret, dirs, twice, []) == twice;
    assert Run(secret, dirs, once, [Write(b, g)]) == twice;
  }

  /** Exact, for one local write: it keeps the mirror safe exactly when the new file is not dated
      before the mark, unless the store already holds its bytes. */
  lemma WriteExactly(secret: int, dirs: Dirs, s: System, loc: Loc, file: File)
    requires Safe(secret, dirs, s)
    ensures Safe(secret, dirs, EventStep(secret, dirs, s, Write(loc, file)))
            <==> file.mtime >= s.mirror.mark
                 || Recover(secret, s.mirror.store, KeyOf(dirs, loc)) == Some(file.data)
  {
    hide KeyOf, Recover;
    var t := EventStep(secret, dirs, s, Write(loc, file));
    assert t.disk[loc] == file;
    forall other | other in t.disk && other != loc
      ensures other in s.disk && t.disk[other] == s.disk[other]
      ensures Current(secret, dirs, t, other) <==> Current(secret, dirs, s, other)
    {
    }
  }

  function Run(secret: int, dirs: Dirs, s: System, events: seq<Event>): System
    decreases events
  {
    if events == [] then s else Run(secret, dirs, EventStep(secret, dirs, s, events[0]), events[1..])
  }

  /** Writes carry nondecreasing times from `clock` on; every scan sees the disk and has no failure. */
  ghost predicate Orderly(secret: int, dirs: Dirs, s: System, events: seq<Event>, clock: int)
    decreases events
  {
    if events == [] then true
    else
      var e := events[0];
      && Sees(s, e)
      && (e.Scan? ==> FailureFree(e.io))
      && (e.Write? ==> e.file.mtime >= clock)
      && Orderly(secret, dirs, EventStep(secret, dirs, s, e), events[1..], if e.Write? then e.file.mtime else clock)
  }

  /** Nothing on disk, and not the mark, is dated after `clock`. */
  ghost predicate NotAfter(s: System, clock: int) {
    s.mirror.mark <= clock && forall loc :: loc in s.disk ==> s.disk[loc].mtime <= clock
  }

  lemma StepSafe(secret: int, dirs: Dirs, s: System, e: Event, clock: int)
    requires Apart(dirs) && Safe(secret, dirs, s) && NotAfter(s, clock)
    requires Sees(s, e) && (e.Scan? ==> FailureFree(e.io)) && (e.Write? ==> e.file.mtime >= clock)
    ensures var t := EventStep(secret, dirs, s, e);
            && Safe(secret, dirs, t)
            && NotAfter(t, if e.Write? then e.file.mtime else clock)
            && t.mirror.mark >= s.mirror.mark
            && (e.Scan? ==> AllCurrent(secret, dirs, t))
  {
    match e
    case Write(loc, file) => WriteExactly(secret, dirs, s, loc, file);
    case Remove(loc) => RemoveSafe(secret, dirs, s, loc);
    case Scan(_, _, _) =>
      hide EventStep, Sees, Comparable, KeyOf, Current;
      StepDisk(secret, dirs, s, e);
      CleanScanExactly(secret, dirs, s, e);
      ScanMark(secret, dirs, s, e);
  }

  lemma RemoveSafe(secret: int, dirs: Dirs, s: System, loc: Loc)
    requires Safe(secret, dirs, s)
    ensures Safe(secret, dirs, EventStep(secret, dirs, s, Remove(loc)))
  {
    hide KeyOf, Recover;
    var t := EventStep(secret, dirs, s, Remove(loc));
    forall other | other in t.disk && t.disk[other].mtime < t.mirror.mark
      ensures Current(secret, dirs, t, other)
    {
      assert other in s.disk && Current(secret, dirs, s, other);
    }
  }

  /** Main result over whole runs: with nondecreasing write times and no failures the mirror is always
      safe, the mark never falls, and after every scan each file on disk can be restored. */
  lemma {:induction false} OrderlyRunsRestore(secret: int, dirs: Dirs, s: System, events: seq<Event>, clock: int)
    requires Apart(dirs) && Safe(secret, dirs, s) && NotAfter(s, clock) && Orderly(secret, dirs, s, events, clock)
    ensures var t := Run(secret, dirs, s, events);
            && Safe(secret, dirs, t)
            && t.mirror.mark >= s.mirror.mark
            && (events != [] && events[|events| - 1].Scan? ==> AllCurrent(secret, dirs, t))
    decreases events
  {
    if events != [] {
      hide Apart, Safe, NotAfter, EventStep, Sees, AllCurrent;
      var e := events[0];
      StepSafe(secret, dirs, s, e, clock);
      var next := EventStep(secret, dirs, s, e);
      OrderlyRunsRestore(secret, dirs, next, events[1..], if e.Write? then e.file.mtime else clock);
      if |events| > 1 {
        assert events[1..][|events[1..]| - 1] == events[|events| - 1];
      }
    }
  }

  ghost predicate SeesAll(secret: int, dirs: Dirs, s: System, events: seq<Event>)
    decreases events
  {
    events != [] ==> Sees(s, events[0]) && SeesAll(secret, dirs, EventStep(secret, dirs, s, events[0]), events[1..])
  }

  predicate Touches(e: Event, loc: Loc) {
    (e.Write? && e.loc == loc) || (e.Remove? && e.loc == loc)
  }

  /** Why safety matters: a file below the mark whose bytes are not in the store is never uploaded
      again, whatever later scans do, until it is rewritten or removed. */
  lemma {:induction false} SkippedStaysLost(secret: int, dirs: Dirs, s: System, events: seq<Event>, loc: Loc)
    requires Apart(dirs) && SeesAll(secret, dirs, s, events)
    requires forall e :: e in events ==> !Touches(e, loc)
    requires loc in s.disk && s.disk[loc].mtime < s.mirror.mark && !Current(secret, dirs, s, loc)
    ensures var t := Run(secret, dirs, s, events);
            loc in t.disk && t.disk[loc] == s.disk[loc] && !Current(secret, dirs, t, loc)
    decreases events
  {
    if events != [] {
      var e := events[0];
      var next := EventStep(secret, dirs, s, e);
      SkippedStep(secret, dirs, s, e, loc);
      hide Apart, EventStep, Sees, Current;
      SkippedStaysLost(secret, dirs, next, events[1..], loc);
    }
  }

  lemma SkippedStep(secret: int, dirs: Dirs, s: System, e: Event, loc: Loc)
    requires Apart(dirs) && Sees(s, e) && !Touches(e, loc)
    requires loc in s.disk && s.disk[loc].mtime < s.mirror.mark && !Current(secret, dirs, s, loc)
    ensures var t := EventStep(secret, dirs, s, e);
            loc in t.disk && t.disk[loc] == s.disk[loc] && t.mirror.mark >= s.mirror.mark
                && !Current(secret, dirs, t, loc)
  {
    if e.Scan? {
      hide EventStep, Sees, Comparable, KeyOf, Current;
      StepDisk(secret, dirs, s, e);
      ScanEffect(secret, dirs, s, e, loc);
      ScanMark(secret, dirs, s, e);
    }
  }

  // ---------------------------------------------------------------- the order of one directory's uploads

  predicate OldestFirst(s: seq<Found>) {
    forall i, j :: 0 <= i < j < |s| ==> s[i].mtime <= s[j].mtime
  }

  function DatedAt(s: seq<Found>, mtime: int): seq<Found> {
    if s == [] then []
    else if s[0].mtime == mtime then [s[0]] + DatedAt(s[1..], mtime)
    else DatedAt(s[1..], mtime)
  }

  lemma {:induction false} InsertOrders(x: Found, s: seq<Found>, mtime: int)
    requires OldestFirst(s)
    ensures OldestFirst(InsertByMtime(x, s))
    ensures DatedAt(InsertByMtime(x, s), mtime) == DatedAt([x] + s, mtime)
  {
    assert ([x] + s)[1..] == s;
    if s != [] && x.mtime > s[0].mtime {
      InsertOrders(x, s[1..], mtime);
      var rest := InsertByMtime(x, s[1..]);
      forall i | 0 <= i < |rest|
        ensures s[0].mtime <= rest[i].mtime
      {
        InsertSame(x, s[1..], rest[i]);
      }
      assert ([x] + s[1..])[1..] == s[1..];
      assert ([s[0]] + rest)[1..] == rest;
    }
  }

  /** A directory's files are uploaded oldest first, each exactly once, files of one time in walk order. */
  lemma {:induction false} SortIsStable(s: seq<Found>, mtime: int)
    ensures OldestFirst(SortByMtime(s))
    ensures DatedAt(SortByMtime(s), mtime) == DatedAt(s, mtime)
  {
    if s != [] {
      SortIsStable(s[1..], mtime);
      InsertOrders(s[0], SortByMtime(s[1..]), mtime);
      assert ([s[0]] + SortByMtime(s[1..]))[1..] == SortByMtime(s[1..]);
    }
  }
}
