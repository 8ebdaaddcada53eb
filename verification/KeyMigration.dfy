/** Re-encrypting a tenant's rows from the server-wrapped key to the client-held key, in batches.
    Encryption is symbolic: decrypting with another key fails. */
module KeyMigration {
  import opened Collections
  import opened Options

  datatype Key = MasterKey | DataKey(n: nat)

  datatype Cipher = Cipher(key: Key, plain: string)

  function Encrypt(plain: string, key: Key): Cipher { Cipher(key, plain) }

  /** Without a data key the deployment's master key is used. */
  function Decrypt(c: Cipher, key: Option<Key>): Option<string> {
    if c.key == (if key.Some? then key.value else MasterKey) then Some(c.plain) else None
  }

  /** `_decrypt_text_for_user`: the given key, then the master key. */
  function DecryptForUser(c: Cipher, key: Option<Key>): Option<string> {
    match Decrypt(c, key)
    case Some(p) => Some(p)
    case None => if key.None? then None else Decrypt(c, None)
  }

  datatype Source = Server | Client

  datatype Frame = Frame(window: Option<Cipher>, ocr: Option<Cipher>, urls: Option<Cipher>, activity: Option<Cipher>,
                         imageKey: Option<string>, source: Source)

  datatype Audio = Audio(transcript: Option<Cipher>, source: Source)

  /** One tenant's rows. Tables are in `ORDER BY ts` order; a row's position is its id. */
  datatype Tenant = Tenant(frames: seq<Frame>, audio: seq<Audio>, wrapped: Option<Key>, source: Source,
                           apiKey: Option<Cipher>, apiSource: Source)

  // ----- Reading: what every other endpoint sees -----

  /** `_tenant_data_key`: the session's client key or the unwrapped server key, by source column. */
  function KeyFor(t: Tenant, client: Key, source: Source): Option<Key> {
    if source == Client then Some(client) else t.wrapped
  }

  /** A column as a reader sees it: NULL, unreadable, or a plaintext. */
  datatype Seen = Null | Unreadable | Text(text: string)

  function See(c: Option<Cipher>, key: Option<Key>): Seen {
    if c.None? then Null else
      match DecryptForUser(c.value, key)
      case None => Unreadable
      case Some(p) => Text(p)
  }

  datatype FrameView = FrameView(window: Seen, ocr: Seen, urls: Seen, activity: Seen)

  function SeeFrame(t: Tenant, client: Key, i: nat): FrameView
    requires i < |t.frames|
  {
    var f := t.frames[i];
    var k := KeyFor(t, client, f.source);
    FrameView(See(f.window, k), See(f.ocr, k), See(f.urls, k), See(f.activity, k))
  }

  /** A reader sees each column of a row under the key that the row's source selects. */
  lemma SeeFrameExactly(t: Tenant, client: Key, i: nat)
    requires i < |t.frames|
    ensures var f, v := t.frames[i], SeeFrame(t, client, i);
            var k := if f.source == Server then t.wrapped else Some(client);
            && v.window == See(f.window, k) && v.ocr == See(f.ocr, k)
            && v.urls == See(f.urls, k) && v.activity == See(f.activity, k)
  {
  }

  function SeeAudio(t: Tenant, client: Key, i: nat): Seen
    requires i < |t.audio|
  {
    See(t.audio[i].transcript, KeyFor(t, client, t.audio[i].source))
  }

  function SeeApiKey(t: Tenant, client: Key): Seen {
    See(t.apiKey, KeyFor(t, client, t.apiSource))
  }

  /** Readers see the same texts in both states. */
  ghost predicate SameTexts(t: Tenant, u: Tenant, client: Key) {
    && |t.frames| == |u.frames| && |t.audio| == |u.audio|
    && (forall i :: 0 <= i < |t.frames| ==> SeeFrame(t, client, i) == SeeFrame(u, client, i))
    && (forall i :: 0 <= i < |t.audio| ==> SeeAudio(t, client, i) == SeeAudio(u, client, i))
    && SeeApiKey(t, client) == SeeApiKey(u, client)
  }

  // ----- One row -----

  /** Decrypts a column with the old key and encrypts it with the client key; None aborts the batch. */
  function Recrypt(c: Option<Cipher>, legacy: Option<Key>, client: Key): Option<Option<Cipher>> {
    if c.None? then Some(None) else
      match DecryptForUser(c.value, legacy)
      case None => None
      case Some(p) => Some(Some(Encrypt(p, client)))
  }

  datatype RowResult = Abort | ImageFailed | Migrated(frame: Frame)

  /** `uploads` holds the new object key of every image that could be moved. */
  function MigrateFrame(f: Frame, id: nat, legacy: Option<Key>, client: Key, uploads: map<nat, string>): RowResult {
    var window := Recrypt(f.window, legacy, client);
    var ocr := Recrypt(f.ocr, legacy, client);
    var urls := Recrypt(f.urls, legacy, client);
    var activity := Recrypt(f.activity, legacy, client);
    if window.None? || ocr.None? || urls.None? || activity.None? then Abort
    else if f.imageKey.Some? && id !in uploads then ImageFailed
    else Migrated(Frame(window.value, ocr.value, urls.value, activity.value,
                        if f.imageKey.Some? then Some(uploads[id]) else None, Client))
  }

  // ----- A batch -----

  /** Ids of the first `limit` rows that are not yet client-keyed. */
  function PendingFrames(frames: seq<Frame>, limit: nat, offset: nat): seq<nat> {
    if frames == [] || limit == 0 then []
    else if frames[0].source != Client then [offset] + PendingFrames(frames[1..], limit - 1, offset + 1)
    else PendingFrames(frames[1..], limit, offset + 1)
  }

  function PendingAudio(audio: seq<Audio>, limit: nat, offset: nat): seq<nat> {
    if audio == [] || limit == 0 then []
    else if audio[0].source != Client then [offset] + PendingAudio(audio[1..], limit - 1, offset + 1)
    else PendingAudio(audio[1..], limit, offset + 1)
  }

  function CountFrames(frames: seq<Frame>): nat {
    if frames == [] then 0 else (if frames[0].source != Client then 1 else 0) + CountFrames(frames[1..])
  }

  function CountAudio(audio: seq<Audio>): nat {
    if audio == [] then 0 else (if audio[0].source != Client then 1 else 0) + CountAudio(audio[1..])
  }

  function CountApiKey(t: Tenant): nat {
    if t.apiKey.Some? && t.apiSource != Client then 1 else 0
  }

  datatype FramePass = FramePass(frames: seq<Frame>, migrated: nat, imageErrors: nat, ok: bool)

  /** The frame loop: one row after another, stopping at the first undecryptable one. */
  function MigrateFrames(frames: seq<Frame>, ids: seq<nat>, legacy: Option<Key>, client: Key,
                         uploads: map<nat, string>): FramePass
    requires forall i :: 0 <= i < |ids| ==> ids[i] < |frames|
    decreases |ids|
  {
    if ids == [] then FramePass(frames, 0, 0, true) else
      match MigrateFrame(frames[ids[0]], ids[0], legacy, client, uploads)
      case Abort => FramePass(frames, 0, 0, false)
      case ImageFailed =>
        var r := MigrateFrames(frames, ids[1..], legacy, client, uploads);
        r.(imageErrors := r.imageErrors + 1)
      case Migrated(f) =>
        var r := MigrateFrames(frames[ids[0] := f], ids[1..], legacy, client, uploads);
        r.(migrated := r.migrated + 1)
  }

  datatype AudioPass = AudioPass(audio: seq<Audio>, migrated: nat, ok: bool)

  function MigrateAudio(audio: seq<Audio>, ids: seq<nat>, legacy: Option<Key>, client: Key): AudioPass
    requires forall i :: 0 <= i < |ids| ==> ids[i] < |audio|
    decreases |ids|
  {
    if ids == [] then AudioPass(audio, 0, true) else
      match Recrypt(audio[ids[0]].transcript, legacy, client)
      case None => AudioPass(audio, 0, false)
      case Some(c) =>
        var r := MigrateAudio(audio[ids[0] := Audio(c, Client)], ids[1..], legacy, client);
        r.(migrated := r.migrated + 1)
  }

  datatype Report = Failed | Batch(migratedFrames: nat, migratedAudio: nat, migratedApiKey: bool, imageErrors: nat,
                                   remainingFrames: nat, remainingAudio: nat, remainingApiKey: nat, keyRemoved: bool)

  function ClampLimit(requested: int): nat {
    if requested < 1 then 1 else if requested > 2000 then 2000 else requested
  }

  /** The API key and the final check; the wrapped key goes when nothing is left. */
  function Finish(t: Tenant, legacy: Option<Key>, client: Key, frames: nat, images: nat, audio: nat): (Tenant, Report) {
    var due := t.apiKey.Some? && t.apiSource != Client;
    var moved := if due then Recrypt(t.apiKey, legacy, client) else Some(t.apiKey);
    if moved.None? then (t, Failed) else
      var u := if due then t.(apiKey := moved.value, apiSource := Client) else t;
      var rf, ra := CountFrames(u.frames), CountAudio(u.audio);
      var rk := CountApiKey(u);
      var clear := rf == 0 && ra == 0 && rk == 0;
      (if clear then u.(wrapped := None, source := Client) else u,
       Batch(frames, audio, due, images, rf, ra, rk, clear))
  }

  lemma {:induction false} PendingFramesInRange(frames: seq<Frame>, limit: nat, offset: nat)
    ensures var ids := PendingFrames(frames, limit, offset);
            && |ids| == (if CountFrames(frames) < limit then CountFrames(frames) else limit)
            && (forall i :: 0 <= i < |ids| ==>
                  offset <= ids[i] < offset + |frames| && frames[ids[i] - offset].source != Client)
            && (forall i, j :: 0 <= i < j < |ids| ==> ids[i] < ids[j])
  {
    if frames != [] && limit != 0 {
      var left := if frames[0].source != Client then limit - 1 else limit;
      var rest := PendingFrames(frames[1..], left, offset + 1);
      PendingFramesInRange(frames[1..], left, offset + 1);
      hide PendingFrames, CountFrames;
      forall i | 0 <= i < |rest|
        ensures offset < rest[i] < offset + |frames| && frames[rest[i] - offset].source != Client
      {
        assert frames[rest[i] - offset] == frames[1..][rest[i] - (offset + 1)];
      }
      PendingFramesCons(frames, limit, offset);
    }
  }

  lemma PendingFramesCons(frames: seq<Frame>, limit: nat, offset: nat)
    requires frames != [] && limit != 0
    ensures PendingFrames(frames, limit, offset)
            == if frames[0].source != Client then [offset] + PendingFrames(frames[1..], limit - 1, offset + 1)
               else PendingFrames(frames[1..], limit, offset + 1)
    ensures CountFrames(frames) == (if frames[0].source != Client then 1 else 0) + CountFrames(frames[1..])
  {
  }

  lemma {:induction false} PendingAudioInRange(audio: seq<Audio>, limit: nat, offset: nat)
    ensures var ids := PendingAudio(audio, limit, offset);
            && |ids| == (if CountAudio(audio) < limit then CountAudio(audio) else limit)
            && (forall i :: 0 <= i < |ids| ==>
                  offset <= ids[i] < offset + |audio| && audio[ids[i] - offset].source != Client)
            && (forall i, j :: 0 <= i < j < |ids| ==> ids[i] < ids[j])
  {
    if audio != [] && limit != 0 {
      var left := if audio[0].source != Client then limit - 1 else limit;
      var rest := PendingAudio(audio[1..], left, offset + 1);
      PendingAudioInRange(audio[1..], left, offset + 1);
      hide PendingAudio, CountAudio;
      forall i | 0 <= i < |rest|
        ensures offset < rest[i] < offset + |audio| && audio[rest[i] - offset].source != Client
      {
        assert audio[rest[i] - offset] == audio[1..][rest[i] - (offset + 1)];
      }
      PendingAudioCons(audio, limit, offset);
    }
  }

  lemma PendingAudioCons(audio: seq<Audio>, limit: nat, offset: nat)
    requires audio != [] && limit != 0
    ensures PendingAudio(audio, limit, offset)
            == if audio[0].source != Client then [offset] + PendingAudio(audio[1..], limit - 1, offset + 1)
               else PendingAudio(audio[1..], limit, offset + 1)
    ensures CountAudio(audio) == (if audio[0].source != Client then 1 else 0) + CountAudio(audio[1..])
  {
  }

  /** One request of the migration endpoint. */
  function MigrateBatch(t: Tenant, client: Key, requested: int, uploads: map<nat, string>): (Tenant, Report) {
    var limit := ClampLimit(requested);
    var legacy := t.wrapped;
    PendingFramesInRange(t.frames, limit, 0);
    var f := MigrateFrames(t.frames, PendingFrames(t.frames, limit, 0), legacy, client, uploads);
    var t1 := t.(frames := f.frames);
    if !f.ok then (t1, Failed) else
      var rest: nat := if limit - f.migrated > 1 then limit - f.migrated else 1;
      PendingAudioInRange(t.audio, rest, 0);
      var a := MigrateAudio(t.audio, PendingAudio(t.audio, rest, 0), legacy, client);
      var t2 := t1.(audio := a.audio);
      if !a.ok then (t2, Failed) else Finish(t2, legacy, client, f.migrated, f.imageErrors, a.migrated)
  }

  class Migration {
    var tenant: Tenant
    const client: Key

    constructor (tenant: Tenant, client: Key)
      ensures this.tenant == tenant && this.client == client
    {
      this.tenant, this.client := tenant, client;
    }

    /** `_http_migrate_client_key`: fetch the due frames, update them one by one, then the audio
        rows, then the API key, then count what is left. An undecryptable row ends the request
        and leaves the updates made so far in place. */
    method Migrate(requested: int, uploads: map<nat, string>) returns (report: Report)
      modifies this`tenant
      ensures (tenant, report) == MigrateBatch(old(tenant), client, requested, uploads)
    {
      hide MigrateFrame, Recrypt, PendingFrames, PendingAudio, CountFrames, CountAudio, Finish, ClampLimit,
        MigrateFrames, MigrateAudio;
      var limit := ClampLimit(requested);
      var legacy := tenant.wrapped;
      PendingFramesInRange(tenant.frames, limit, 0);
      var pass := MigrateDueFrames(PendingFrames(tenant.frames, limit, 0), legacy, uploads);
      if !pass.ok {
        return Failed;
      }
      var rest: nat := if limit - pass.migrated > 1 then limit - pass.migrated else 1;
      PendingAudioInRange(tenant.audio, rest, 0);
      var heard := MigrateDueAudio(PendingAudio(tenant.audio, rest, 0), legacy);
      if !heard.ok {
        return Failed;
      }
      var (t', r') := Finish(tenant, legacy, client, pass.migrated, pass.imageErrors, heard.migrated);
      tenant, report := t', r';
    }

    /** The frame loop: updates the table row by row. */
    method MigrateDueFrames(ids: seq<nat>, legacy: Option<Key>, uploads: map<nat, string>) returns (pass: FramePass)
      requires forall i :: 0 <= i < |ids| ==> ids[i] < |tenant.frames|
      modifies this`tenant
      ensures pass == MigrateFrames(old(tenant).frames, ids, legacy, client, uploads)
      ensures tenant == old(tenant).(frames := pass.frames)
    {
      hide MigrateFrame;
      var migrated, images := 0, 0;
      assert ids[0..] == ids;
      for i := 0 to |ids|
        invariant tenant == old(tenant).(frames := tenant.frames) && |tenant.frames| == |old(tenant).frames|
        invariant var r := MigrateFrames(tenant.frames, ids[i..], legacy, client, uploads);
                  MigrateFrames(old(tenant).frames, ids, legacy, client, uploads)
                  == FramePass(r.frames, migrated + r.migrated, images + r.imageErrors, r.ok)
      {
        assert ids[i..][1..] == ids[i + 1..];
        match MigrateFrame(tenant.frames[ids[i]], ids[i], legacy, client, uploads) {
          case Abort => return FramePass(tenant.frames, migrated, images, false);
          case ImageFailed => images := images + 1;
          case Migrated(f) =>
            tenant := tenant.(frames := tenant.frames[ids[i] := f]);
            migrated := migrated + 1;
        }
      }
      pass := FramePass(tenant.frames, migrated, images, true);
    }

    /** The transcript loop. */
    method MigrateDueAudio(ids: seq<nat>, legacy: Option<Key>) returns (pass: AudioPass)
      requires forall i :: 0 <= i < |ids| ==> ids[i] < |tenant.audio|
      modifies this`tenant
      ensures pass == MigrateAudio(old(tenant).audio, ids, legacy, client)
      ensures tenant == old(tenant).(audio := pass.audio)
    {
      hide Recrypt;
      var heard := 0;
      assert ids[0..] == ids;
      for i := 0 to |ids|
        invariant tenant == old(tenant).(audio := tenant.audio) && |tenant.audio| == |old(tenant).audio|
        invariant var r := MigrateAudio(tenant.audio, ids[i..], legacy, client);
                  MigrateAudio(old(tenant).audio, ids, legacy, client) == AudioPass(r.audio, heard + r.migrated, r.ok)
      {
        assert ids[i..][1..] == ids[i + 1..];
        match Recrypt(tenant.audio[ids[i]].transcript, legacy, client) {
          case None => return AudioPass(tenant.audio, heard, false);
          case Some(c) =>
            tenant := tenant.(audio := tenant.audio[ids[i] := Audio(c, Client)]);
            heard := heard + 1;
        }
      }
      pass := AudioPass(tenant.audio, heard, true);
    }
  }

  // ----- No text is lost -----

  /** Re-encryption keeps the text, and fails exactly on what no reader could read. */
  lemma RecryptKeepsText(c: Option<Cipher>, legacy: Option<Key>, client: Key)
    ensures Recrypt(c, legacy, client).Some? ==> See(Recrypt(c, legacy, client).value, Some(client)) == See(c, legacy)
    ensures Recrypt(c, legacy, client).None? <==> See(c, legacy) == Unreadable
  {
  }

  /** Frames as readers see them under fixed keys. */
  ghost predicate SameFrames(a: seq<Frame>, b: seq<Frame>, legacy: Option<Key>, client: Key) {
    && |a| == |b|
    && forall i :: 0 <= i < |a| ==>
         var ka := if a[i].source == Client then Some(client) else legacy;
         var kb := if b[i].source == Client then Some(client) else legacy;
         && See(a[i].window, ka) == See(b[i].window, kb) && See(a[i].ocr, ka) == See(b[i].ocr, kb)
         && See(a[i].urls, ka) == See(b[i].urls, kb) && See(a[i].activity, ka) == See(b[i].activity, kb)
  }

  ghost predicate SameAudio(a: seq<Audio>, b: seq<Audio>, legacy: Option<Key>, client: Key) {
    && |a| == |b|
    && forall i :: 0 <= i < |a| ==>
         See(a[i].transcript, if a[i].source == Client then Some(client) else legacy)
         == See(b[i].transcript, if b[i].source == Client then Some(client) else legacy)
  }

  ghost predicate Due(frames: seq<Frame>, ids: seq<nat>) {
    && (forall i :: 0 <= i < |ids| ==> ids[i] < |frames| && frames[ids[i]].source != Client)
    && (forall i, j :: 0 <= i < j < |ids| ==> ids[i] != ids[j])
  }

  lemma MigrateFrameKeepsTexts(f: Frame, id: nat, legacy: Option<Key>, client: Key, uploads: map<nat, string>)
    requires f.source != Client
    ensures match MigrateFrame(f, id, legacy, client, uploads)
            case Migrated(g) => SameFrames([f], [g], legacy, client) && g.source == Client
            case _ => true
  {
    RecryptKeepsText(f.window, legacy, client);
    RecryptKeepsText(f.ocr, legacy, client);
    RecryptKeepsText(f.urls, legacy, client);
    RecryptKeepsText(f.activity, legacy, client);
  }

  lemma {:induction false} CountUpdate(frames: seq<Frame>, id: nat, f: Frame)
    requires id < |frames| && frames[id].source != Client && f.source == Client
    ensures CountFrames(frames[id := f]) == CountFrames(frames) - 1
  {
    if id == 0 {
      assert frames[0 := f][1..] == frames[1..];
    } else {
      CountUpdate(frames[1..], id - 1, f);
      assert frames[id := f][1..] == frames[1..][id - 1 := f];
    }
  }

  lemma {:induction false} CountAudioUpdate(audio: seq<Audio>, id: nat, a: Audio)
    requires id < |audio| && audio[id].source != Client && a.source == Client
    ensures CountAudio(audio[id := a]) == CountAudio(audio) - 1
  {
    if id == 0 {
      assert audio[0 := a][1..] == audio[1..];
    } else {
      CountAudioUpdate(audio[1..], id - 1, a);
      assert audio[id := a][1..] == audio[1..][id - 1 := a];
    }
  }

  lemma FrameUpdateKeeps(frames: seq<Frame>, ids: seq<nat>, f: Frame, legacy: Option<Key>, client: Key)
    requires ids != [] && Due(frames, ids) && SameFrames([frames[ids[0]]], [f], legacy, client)
    ensures SameFrames(frames, frames[ids[0] := f], legacy, client) && Due(frames[ids[0] := f], ids[1..])
    ensures Due(frames, ids[1..])
  {
    var next := frames[ids[0] := f];
    assert [frames[ids[0]]][0] == frames[ids[0]] && [f][0] == f;
    forall i | 0 <= i < |ids| - 1 ensures ids[1..][i] < |next| && next[ids[1..][i]].source != Client {
      assert ids[1..][i] == ids[i + 1] != ids[0];
    }
  }

  lemma SameFramesTrans(a: seq<Frame>, b: seq<Frame>, c: seq<Frame>, legacy: Option<Key>, client: Key)
    requires SameFrames(a, b, legacy, client) && SameFrames(b, c, legacy, client)
    ensures SameFrames(a, c, legacy, client)
  {
  }

  lemma SameFramesSelf(a: seq<Frame>, legacy: Option<Key>, client: Key)
    ensures SameFrames(a, a, legacy, client)
  {
  }

  lemma DueTail(frames: seq<Frame>, ids: seq<nat>)
    requires ids != [] && Due(frames, ids)
    ensures Due(frames, ids[1..]) && ids[0] < |frames| && frames[ids[0]].source != Client
  {
  }

  /** The frame loop keeps every text, and what it migrates is what leaves the pending count. */
  lemma {:induction false} FramesPass(frames: seq<Frame>, ids: seq<nat>, legacy: Option<Key>, client: Key,
                                      uploads: map<nat, string>)
    requires Due(frames, ids)
    ensures var r := MigrateFrames(frames, ids, legacy, client, uploads);
            && SameFrames(frames, r.frames, legacy, client)
            && CountFrames(r.frames) == CountFrames(frames) - r.migrated
            && r.migrated + r.imageErrors <= |ids| && (r.ok ==> r.migrated + r.imageErrors == |ids|)
    decreases |ids|
  {
    SameFramesSelf(frames, legacy, client);
    if ids != [] {
      DueTail(frames, ids);
      hide SameFrames, CountFrames, MigrateFrame;
      match MigrateFrame(frames[ids[0]], ids[0], legacy, client, uploads)
      case Abort =>
      case ImageFailed =>
        FramesPass(frames, ids[1..], legacy, client, uploads);
      case Migrated(f) =>
        var next := frames[ids[0] := f];
        MigrateFrameKeepsTexts(frames[ids[0]], ids[0], legacy, client, uploads);
        FrameUpdateKeeps(frames, ids, f, legacy, client);
        CountUpdate(frames, ids[0], f);
        FramesPass(next, ids[1..], legacy, client, uploads);
        SameFramesTrans(frames, next, MigrateFrames(next, ids[1..], legacy, client, uploads).frames, legacy, client);
    }
  }

  /** The transcript loop keeps every text, and what it migrates leaves the pending count. */
  lemma {:induction false} AudioPassKeeps(audio: seq<Audio>, ids: seq<nat>, legacy: Option<Key>, client: Key)
    requires forall i :: 0 <= i < |ids| ==> ids[i] < |audio| && audio[ids[i]].source != Client
    requires forall i, j :: 0 <= i < j < |ids| ==> ids[i] != ids[j]
    ensures var r := MigrateAudio(audio, ids, legacy, client);
            && SameAudio(audio, r.audio, legacy, client)
            && CountAudio(r.audio) == CountAudio(audio) - r.migrated
            && r.migrated <= |ids| && (r.ok ==> r.migrated == |ids|)
    decreases |ids|
  {
    if ids != [] {
      RecryptKeepsText(audio[ids[0]].transcript, legacy, client);
      match Recrypt(audio[ids[0]].transcript, legacy, client)
      case None =>
      case Some(c) =>
        var next := audio[ids[0] := Audio(c, Client)];
        CountAudioUpdate(audio, ids[0], Audio(c, Client));
        forall i | 0 <= i < |ids| - 1 ensures ids[1..][i] < |next| && next[ids[1..][i]].source != Client {
          assert ids[1..][i] == ids[i + 1] != ids[0];
        }
        AudioPassKeeps(next, ids[1..], legacy, client);
        assert SameAudio(audio, next, legacy, client);
    }
  }

  /** Everything that still needs the server key can be decrypted with it. */
  ghost predicate DueReadable(t: Tenant) {
    && (forall i :: 0 <= i < |t.frames| && t.frames[i].source != Client ==> Readable(t.frames[i], t.wrapped))
    && (forall i :: 0 <= i < |t.audio| && t.audio[i].source != Client ==>
          See(t.audio[i].transcript, t.wrapped) != Unreadable)
    && (t.apiSource != Client ==> See(t.apiKey, t.wrapped) != Unreadable)
  }

  ghost predicate AllImagesMove(t: Tenant, uploads: map<nat, string>) {
    forall i :: 0 <= i < |t.frames| && t.frames[i].imageKey.Some? ==> i in uploads
  }

  /** All columns of a due row can be decrypted with the server key. */
  predicate Readable(f: Frame, legacy: Option<Key>) {
    && See(f.window, legacy) != Unreadable && See(f.ocr, legacy) != Unreadable
    && See(f.urls, legacy) != Unreadable && See(f.activity, legacy) != Unreadable
  }

  ghost predicate ReadableFrames(frames: seq<Frame>, ids: seq<nat>, legacy: Option<Key>)
    requires Due(frames, ids)
  {
    forall i :: 0 <= i < |ids| ==> Readable(frames[ids[i]], legacy)
  }

  predicate Unmovable(f: Frame, id: nat, uploads: map<nat, string>) {
    f.imageKey.Some? && id !in uploads
  }

  /** An unreadable row aborts; a readable one fails only on an image that cannot be moved. */
  lemma RowOutcome(f: Frame, id: nat, legacy: Option<Key>, client: Key, uploads: map<nat, string>)
    ensures var r := MigrateFrame(f, id, legacy, client, uploads);
            && (r.Abort? <==> !Readable(f, legacy))
            && (r.ImageFailed? <==> Readable(f, legacy) && Unmovable(f, id, uploads))
  {
    RecryptKeepsText(f.window, legacy, client);
    RecryptKeepsText(f.ocr, legacy, client);
    RecryptKeepsText(f.urls, legacy, client);
    RecryptKeepsText(f.activity, legacy, client);
    hide Recrypt, See;
  }

  /** On readable rows the frame loop fails never; what it skips are the failed images. */
  lemma {:induction false} FramesPassOk(frames: seq<Frame>, ids: seq<nat>, legacy: Option<Key>, client: Key,
                                        uploads: map<nat, string>)
    requires Due(frames, ids) && ReadableFrames(frames, ids, legacy)
    ensures var r := MigrateFrames(frames, ids, legacy, client, uploads);
            && r.ok
            && ((forall i :: 0 <= i < |ids| ==> frames[ids[i]].imageKey.Some? ==> ids[i] in uploads)
                ==> r.imageErrors == 0)
    decreases |ids|
  {
    if ids != [] {
      hide MigrateFrame, Readable;
      var f0 := frames[ids[0]];
      RowOutcome(f0, ids[0], legacy, client, uploads);
      var rest := ids[1..];
      assert forall i :: 0 <= i < |rest| ==> rest[i] == ids[i + 1];
      match MigrateFrame(f0, ids[0], legacy, client, uploads)
      case ImageFailed =>
        FramesPassOk(frames, rest, legacy, client, uploads);
        assert forall i :: 0 < i < |ids| ==> ids[i] == rest[i - 1];
      case Migrated(f) =>
        var next := frames[ids[0] := f];
        assert forall i :: 0 <= i < |rest| ==> next[rest[i]] == frames[rest[i]];
        FramesPassOk(next, rest, legacy, client, uploads);
        assert forall i :: 0 < i < |ids| ==> ids[i] == rest[i - 1];
    }
  }

  lemma {:induction false} AudioPassOk(audio: seq<Audio>, ids: seq<nat>, legacy: Option<Key>, client: Key)
    requires forall i :: 0 <= i < |ids| ==> ids[i] < |audio| && See(audio[ids[i]].transcript, legacy) != Unreadable
    requires forall i, j :: 0 <= i < j < |ids| ==> ids[i] != ids[j]
    ensures MigrateAudio(audio, ids, legacy, client).ok
    decreases |ids|
  {
    if ids != [] {
      RecryptKeepsText(audio[ids[0]].transcript, legacy, client);
      match Recrypt(audio[ids[0]].transcript, legacy, client)
      case None =>
      case Some(c) =>
        var next, rest := audio[ids[0] := Audio(c, Client)], ids[1..];
        assert forall i :: 0 <= i < |rest| ==> rest[i] == ids[i + 1] && next[rest[i]] == audio[rest[i]];
        AudioPassOk(next, rest, legacy, client);
    }
  }

  lemma {:induction false} NoneLeft(frames: seq<Frame>, i: nat)
    requires CountFrames(frames) == 0 && i < |frames|
    ensures frames[i].source == Client
  {
    if i > 0 { NoneLeft(frames[1..], i - 1); }
  }

  lemma {:induction false} NoAudioLeft(audio: seq<Audio>, i: nat)
    requires CountAudio(audio) == 0 && i < |audio|
    ensures audio[i].source == Client
  {
    if i > 0 { NoAudioLeft(audio[1..], i - 1); }
  }

  /** After the final check every text reads as before, and the wrapped key is dropped exactly
      when no frame, transcript or API key needs it. */
  lemma FinishKeeps(t: Tenant, client: Key, f: nat, images: nat, a: nat)
    ensures var (u, r) := Finish(t, t.wrapped, client, f, images, a);
            && SameTexts(t, u, client) && u.frames == t.frames && u.audio == t.audio
            && (r.Failed? <==> SeeApiKey(t, client) == Unreadable && t.apiSource != Client)
            && (r.Batch? ==> (r.keyRemoved
                              <==> r.remainingFrames == 0 && r.remainingAudio == 0 && r.remainingApiKey == 0)
                             && u.wrapped == (if r.keyRemoved then None else t.wrapped)
                             && r.remainingFrames == CountFrames(u.frames) && r.remainingAudio == CountAudio(u.audio)
                             && r.remainingApiKey == 0
                             && r.migratedFrames == f && r.imageErrors == images && r.migratedAudio == a)
            && (r.Failed? ==> u == t)
            && CountApiKey(u) <= CountApiKey(t)
            && (u.wrapped != t.wrapped ==> NeedsNoServerKey(u))
            && (r.Batch? && r.keyRemoved ==> NeedsNoServerKey(u))
  {
    hide MigrateFrame, CountFrames, CountAudio, NeedsNoServerKey;
    RecryptKeepsText(t.apiKey, t.wrapped, client);
    NothingLeft(Finish(t, t.wrapped, client, f, images, a).0);
  }

  lemma NothingLeft(t: Tenant)
    ensures CountFrames(t.frames) == 0 && CountAudio(t.audio) == 0 && CountApiKey(t) == 0 ==> NeedsNoServerKey(t)
  {
    if CountFrames(t.frames) == 0 {
      forall i | 0 <= i < |t.frames| ensures t.frames[i].source == Client { NoneLeft(t.frames, i); }
    }
    if CountAudio(t.audio) == 0 {
      forall i | 0 <= i < |t.audio| ensures t.audio[i].source == Client { NoAudioLeft(t.audio, i); }
    }
  }

  /** Nothing that is stored still selects the server key. */
  ghost predicate NeedsNoServerKey(t: Tenant) {
    && (forall i :: 0 <= i < |t.frames| ==> t.frames[i].source == Client)
    && (forall i :: 0 <= i < |t.audio| ==> t.audio[i].source == Client)
    && (t.apiKey.Some? ==> t.apiSource == Client)
  }

  lemma PendingDue(frames: seq<Frame>, limit: nat)
    ensures Due(frames, PendingFrames(frames, limit, 0))
  {
    PendingFramesInRange(frames, limit, 0);
  }

  /** One batch, whatever fails in it: every text reads as before, no count rises, and the wrapped
      key goes only when nothing needs it. */
  lemma BatchSafe(t: Tenant, client: Key, requested: int, uploads: map<nat, string>)
    ensures var (u, r) := MigrateBatch(t, client, requested, uploads);
            && SameTexts(t, u, client)
            && CountFrames(u.frames) <= CountFrames(t.frames) && CountAudio(u.audio) <= CountAudio(t.audio)
            && CountApiKey(u) <= CountApiKey(t)
            && (u.wrapped != t.wrapped ==> u.wrapped == None && NeedsNoServerKey(u))
  {
    hide CountFrames, CountAudio, MigrateFrames, MigrateAudio, PendingFrames, PendingAudio, Finish, ClampLimit;
    var limit, legacy := ClampLimit(requested), t.wrapped;
    PendingDue(t.frames, limit);
    FramesPass(t.frames, PendingFrames(t.frames, limit, 0), legacy, client, uploads);
    var f := MigrateFrames(t.frames, PendingFrames(t.frames, limit, 0), legacy, client, uploads);
    var t1 := t.(frames := f.frames);
    FramesSeen(t, t1, client);
    if f.ok {
      var rest: nat := if limit - f.migrated > 1 then limit - f.migrated else 1;
      PendingAudioInRange(t.audio, rest, 0);
      var a := MigrateAudio(t.audio, PendingAudio(t.audio, rest, 0), legacy, client);
      AudioPassKeeps(t.audio, PendingAudio(t.audio, rest, 0), legacy, client);
      var t2 := t1.(audio := a.audio);
      AudioSeen(t1, t2, client);
      if a.ok {
        FinishKeeps(t2, client, f.migrated, f.imageErrors, a.migrated);
        SameTextsTrans(t1, t2, Finish(t2, legacy, client, f.migrated, f.imageErrors, a.migrated).0, client);
        SameTextsTrans(t, t1, Finish(t2, legacy, client, f.migrated, f.imageErrors, a.migrated).0, client);
      } else {
        SameTextsTrans(t, t1, t2, client);
      }
    }
  }

  lemma FramesSeen(t: Tenant, u: Tenant, client: Key)
    requires u == t.(frames := u.frames) && SameFrames(t.frames, u.frames, t.wrapped, client)
    ensures SameTexts(t, u, client)
  {
  }

  lemma AudioSeen(t: Tenant, u: Tenant, client: Key)
    requires u == t.(audio := u.audio) && SameAudio(t.audio, u.audio, t.wrapped, client)
    ensures SameTexts(t, u, client)
  {
  }

  lemma SameTextsTrans(t: Tenant, u: Tenant, v: Tenant, client: Key)
    requires SameTexts(t, u, client) && SameTexts(u, v, client)
    ensures SameTexts(t, v, client)
  {
  }

  /** One batch with everything due readable and all images movable: it reports success, takes off the
      pending frames up to the limit and at least one pending transcript. */
  lemma CleanBatch(t: Tenant, client: Key, requested: int, uploads: map<nat, string>)
    requires DueReadable(t) && AllImagesMove(t, uploads)
    ensures var (u, r) := MigrateBatch(t, client, requested, uploads);
            var limit := ClampLimit(requested);
            && r.Batch? && r.imageErrors == 0 && r.remainingApiKey == 0
            && CountFrames(u.frames) == (if CountFrames(t.frames) <= limit then 0 else CountFrames(t.frames) - limit)
            && (CountAudio(t.audio) > 0 ==> CountAudio(u.audio) < CountAudio(t.audio))
            && (CountFrames(u.frames) == 0 && CountAudio(u.audio) == 0 ==>
                  r.keyRemoved && u.wrapped == None && NeedsNoServerKey(u))
  {
    hide CountFrames, CountAudio, MigrateFrames, MigrateAudio, PendingFrames, PendingAudio, Finish, ClampLimit,
      DueReadable, AllImagesMove, SameTexts, NeedsNoServerKey;
    var limit := ClampLimit(requested);
    LimitPositive(requested);
    CleanFramePass(t, client, limit, uploads);
    var f := MigrateFrames(t.frames, PendingFrames(t.frames, limit, 0), t.wrapped, client, uploads);
    var rest: nat := if limit - f.migrated > 1 then limit - f.migrated else 1;
    CleanAudioPass(t, client, rest);
    var a := MigrateAudio(t.audio, PendingAudio(t.audio, rest, 0), t.wrapped, client);
    var t2 := t.(frames := f.frames, audio := a.audio);
    FinishKeeps(t2, client, f.migrated, f.imageErrors, a.migrated);
    CleanApiKey(t, t2, client);
    assert MigrateBatch(t, client, requested, uploads)
        == Finish(t2, t.wrapped, client, f.migrated, f.imageErrors, a.migrated);
    var (u, r) := Finish(t2, t.wrapped, client, f.migrated, f.imageErrors, a.migrated);
    assert r.Batch? && u.frames == f.frames && u.audio == a.audio;
    assert CountFrames(u.frames) == 0 && CountAudio(u.audio) == 0 ==> r.keyRemoved;
  }

  lemma LimitPositive(requested: int)
    ensures ClampLimit(requested) >= 1
  {
  }

  lemma CleanApiKey(t: Tenant, u: Tenant, client: Key)
    requires DueReadable(t) && u == t.(frames := u.frames, audio := u.audio)
    ensures !(SeeApiKey(u, client) == Unreadable && u.apiSource != Client)
  {
  }

  lemma CleanFramePass(t: Tenant, client: Key, limit: nat, uploads: map<nat, string>)
    requires DueReadable(t) && AllImagesMove(t, uploads)
    ensures forall i :: 0 <= i < |PendingFrames(t.frames, limit, 0)| ==>
              PendingFrames(t.frames, limit, 0)[i] < |t.frames|
    ensures var f := MigrateFrames(t.frames, PendingFrames(t.frames, limit, 0), t.wrapped, client, uploads);
            f.ok && f.imageErrors == 0
            && CountFrames(f.frames) == (if CountFrames(t.frames) <= limit then 0 else CountFrames(t.frames) - limit)
  {
    hide CountFrames, MigrateFrames, PendingFrames, SameFrames, DueReadable, ReadableFrames;
    PendingFramesInRange(t.frames, limit, 0);
    var ids := PendingFrames(t.frames, limit, 0);
    PendingDue(t.frames, limit);
    FramesPass(t.frames, ids, t.wrapped, client, uploads);
    CleanFrames(t, client, ids);
    FramesPassOk(t.frames, ids, t.wrapped, client, uploads);
    assert forall i :: 0 <= i < |ids| ==> (t.frames[ids[i]].imageKey.Some? ==> ids[i] in uploads);
  }

  lemma CleanAudioPass(t: Tenant, client: Key, rest: nat)
    requires DueReadable(t) && rest >= 1
    ensures forall i :: 0 <= i < |PendingAudio(t.audio, rest, 0)| ==> PendingAudio(t.audio, rest, 0)[i] < |t.audio|
    ensures var a := MigrateAudio(t.audio, PendingAudio(t.audio, rest, 0), t.wrapped, client);
            a.ok && (CountAudio(t.audio) > 0 ==> CountAudio(a.audio) < CountAudio(t.audio))
  {
    hide CountAudio, MigrateAudio, PendingAudio, SameAudio;
    PendingAudioInRange(t.audio, rest, 0);
    var ids := PendingAudio(t.audio, rest, 0);
    AudioPassKeeps(t.audio, ids, t.wrapped, client);
    assert forall i :: 0 <= i < |ids| ==> See(t.audio[ids[i]].transcript, t.wrapped) != Unreadable;
    AudioPassOk(t.audio, ids, t.wrapped, client);
  }

  lemma CleanFrames(t: Tenant, client: Key, ids: seq<nat>)
    requires DueReadable(t) && Due(t.frames, ids)
    ensures ReadableFrames(t.frames, ids, t.wrapped)
  {
    hide Readable;
  }

  // ----- Runs of batches -----

  datatype Request = Request(limit: int, uploads: map<nat, string>)

  function RunBatches(t: Tenant, client: Key, requests: seq<Request>): Tenant
    decreases |requests|
  {
    if requests == [] then t
    else RunBatches(MigrateBatch(t, client, requests[0].limit, requests[0].uploads).0, client, requests[1..])
  }

  /** Main result, safety: over any sequence of batches, failing or not, every text reads as it did at the
      start, no remaining count rises, neither of frames nor of transcripts nor of the API key, and the
      wrapped key is the one it was, or gone and needed by nothing. */
  lemma {:induction false} RunSafe(t: Tenant, client: Key, requests: seq<Request>)
    ensures var u := RunBatches(t, client, requests);
            && SameTexts(t, u, client)
            && CountFrames(u.frames) <= CountFrames(t.frames) && CountAudio(u.audio) <= CountAudio(t.audio)
            && CountApiKey(u) <= CountApiKey(t)
            && (u.wrapped == t.wrapped || (u.wrapped == None && NeedsNoServerKey(u)))
    decreases |requests|
  {
    hide CountFrames, CountAudio, CountApiKey, MigrateBatch;
    if requests != [] {
      var t1 := MigrateBatch(t, client, requests[0].limit, requests[0].uploads).0;
      BatchSafe(t, client, requests[0].limit, requests[0].uploads);
      RunSafe(t1, client, requests[1..]);
      SameTextsTrans(t, t1, RunBatches(t1, client, requests[1..]), client);
      if t1.wrapped.None? && t.wrapped.Some? {
        RunKeepsMigrated(t1, client, requests[1..]);
      }
    }
  }

  /** Once nothing needs the server key, nothing will. */
  lemma {:induction false} RunKeepsMigrated(t: Tenant, client: Key, requests: seq<Request>)
    requires NeedsNoServerKey(t)
    ensures NeedsNoServerKey(RunBatches(t, client, requests))
    decreases |requests|
  {
    if requests != [] {
      hide MigrateBatch;
      BatchKeepsMigrated(t, client, requests[0].limit, requests[0].uploads);
      RunKeepsMigrated(MigrateBatch(t, client, requests[0].limit, requests[0].uploads).0, client, requests[1..]);
    }
  }

  lemma {:induction false} NothingPending(frames: seq<Frame>, limit: nat, offset: nat)
    requires forall i :: 0 <= i < |frames| ==> frames[i].source == Client
    ensures PendingFrames(frames, limit, offset) == [] && CountFrames(frames) == 0
  {
    if frames != [] {
      NothingPending(frames[1..], limit, offset + 1);
    }
  }

  lemma {:induction false} NoAudioPending(audio: seq<Audio>, limit: nat, offset: nat)
    requires forall i :: 0 <= i < |audio| ==> audio[i].source == Client
    ensures PendingAudio(audio, limit, offset) == [] && CountAudio(audio) == 0
  {
    if audio != [] {
      NoAudioPending(audio[1..], limit, offset + 1);
    }
  }

  lemma BatchKeepsMigrated(t: Tenant, client: Key, requested: int, uploads: map<nat, string>)
    requires NeedsNoServerKey(t)
    ensures NeedsNoServerKey(MigrateBatch(t, client, requested, uploads).0)
  {
    hide PendingFrames, PendingAudio;
    NothingPending(t.frames, ClampLimit(requested), 0);
    NoAudioPending(t.audio, ClampLimit(requested), 0);
  }

  /** Main result, progress: if everything due is readable and no image fails, as many batches as there
      are pending frames and transcripts bring every count to zero and remove the wrapped key. */
  lemma {:induction false} RunFinishes(t: Tenant, client: Key, requests: seq<Request>)
    requires DueReadable(t) && requests != []
    requires forall i :: 0 <= i < |requests| ==> AllIds(|t.frames|, requests[i].uploads)
    requires |requests| >= CountFrames(t.frames) && |requests| >= CountAudio(t.audio)
    ensures var u := RunBatches(t, client, requests);
            CountFrames(u.frames) == 0 && CountAudio(u.audio) == 0 && u.wrapped == None && NeedsNoServerKey(u)
    decreases |requests|
  {
    hide CountFrames, CountAudio, MigrateBatch, DueReadable, SameTexts;
    var r0 := requests[0];
    var (t1, report) := MigrateBatch(t, client, r0.limit, r0.uploads);
    CleanBatch(t, client, r0.limit, r0.uploads);
    BatchSafe(t, client, r0.limit, r0.uploads);
    BatchRows(t, client, r0.limit, r0.uploads);
    ReadableKept(t, t1);
    if |requests| == 1 {
      assert RunBatches(t1, client, requests[1..]) == t1;
    } else {
      RunFinishes(t1, client, requests[1..]);
    }
  }

  ghost predicate AllIds(n: nat, uploads: map<nat, string>) {
    forall i: nat :: i < n ==> i in uploads
  }

  // ----- Which rows move -----

  /** Each row is as it was, or was readable and is now under the client key. */
  ghost predicate FramesMove(a: seq<Frame>, b: seq<Frame>, legacy: Option<Key>) {
    |a| == |b| && forall i :: 0 <= i < |a| ==> b[i] == a[i] || (b[i].source == Client && Readable(a[i], legacy))
  }

  ghost predicate AudioMoves(a: seq<Audio>, b: seq<Audio>, legacy: Option<Key>) {
    && |a| == |b|
    && forall i :: 0 <= i < |a| ==>
         b[i] == a[i] || (b[i].source == Client && See(a[i].transcript, legacy) != Unreadable)
  }

  /** Frames, transcripts and the API key move so, and the server key stays as long as anything needs it. */
  ghost predicate Moves(t: Tenant, u: Tenant) {
    && FramesMove(t.frames, u.frames, t.wrapped) && AudioMoves(t.audio, u.audio, t.wrapped)
    && ((u.apiKey == t.apiKey && u.apiSource == t.apiSource)
        || (u.apiSource == Client && See(t.apiKey, t.wrapped) != Unreadable))
    && (u.wrapped == t.wrapped || NeedsNoServerKey(u))
  }

  lemma {:induction false} FrameRows(frames: seq<Frame>, ids: seq<nat>, legacy: Option<Key>, client: Key,
                                     uploads: map<nat, string>)
    requires Due(frames, ids)
    ensures FramesMove(frames, MigrateFrames(frames, ids, legacy, client, uploads).frames, legacy)
    decreases |ids|
  {
    if ids != [] {
      hide MigrateFrame, Readable;
      DueTail(frames, ids);
      RowOutcome(frames[ids[0]], ids[0], legacy, client, uploads);
      match MigrateFrame(frames[ids[0]], ids[0], legacy, client, uploads)
      case Abort =>
      case ImageFailed => FrameRows(frames, ids[1..], legacy, client, uploads);
      case Migrated(f) =>
        MigratedIsClient(frames[ids[0]], ids[0], legacy, client, uploads);
        var next := frames[ids[0] := f];
        assert Due(next, ids[1..]);
        FrameRows(next, ids[1..], legacy, client, uploads);
        var last := MigrateFrames(next, ids[1..], legacy, client, uploads).frames;
        assert next[ids[0]].source == Client;
        UntouchedStays(next, ids[1..], legacy, client, uploads, ids[0]);
        assert forall i :: 0 <= i < |frames| && i != ids[0] ==> next[i] == frames[i];
    }
  }

  lemma MigratedIsClient(f: Frame, id: nat, legacy: Option<Key>, client: Key, uploads: map<nat, string>)
    ensures var r := MigrateFrame(f, id, legacy, client, uploads); r.Migrated? ==> r.frame.source == Client
  {
  }

  lemma {:induction false} UntouchedStays(frames: seq<Frame>, ids: seq<nat>, legacy: Option<Key>, client: Key,
                                          uploads: map<nat, string>, i: nat)
    requires Due(frames, ids) && i < |frames| && i !in ids
    ensures var r := MigrateFrames(frames, ids, legacy, client, uploads).frames; |r| == |frames| && r[i] == frames[i]
    decreases |ids|
  {
    if ids != [] {
      hide MigrateFrame;
      DueTail(frames, ids);
      match MigrateFrame(frames[ids[0]], ids[0], legacy, client, uploads)
      case Abort =>
      case ImageFailed => UntouchedStays(frames, ids[1..], legacy, client, uploads, i);
      case Migrated(f) =>
        assert Due(frames[ids[0] := f], ids[1..]);
        UntouchedStays(frames[ids[0] := f], ids[1..], legacy, client, uploads, i);
    }
  }

  lemma {:induction false} AudioRows(audio: seq<Audio>, ids: seq<nat>, legacy: Option<Key>, client: Key)
    requires forall i :: 0 <= i < |ids| ==> ids[i] < |audio| && audio[ids[i]].source != Client
    requires forall i, j :: 0 <= i < j < |ids| ==> ids[i] != ids[j]
    ensures AudioMoves(audio, MigrateAudio(audio, ids, legacy, client).audio, legacy)
    decreases |ids|
  {
    if ids != [] {
      RecryptKeepsText(audio[ids[0]].transcript, legacy, client);
      hide Recrypt, See;
      match Recrypt(audio[ids[0]].transcript, legacy, client)
      case None =>
      case Some(c) =>
        var next := audio[ids[0] := Audio(c, Client)];
        forall i | 0 <= i < |ids| - 1 ensures ids[1..][i] < |next| && next[ids[1..][i]].source != Client {
          assert ids[1..][i] == ids[i + 1] != ids[0];
        }
        AudioRows(next, ids[1..], legacy, client);
        AudioUntouched(next, ids[1..], legacy, client, ids[0]);
    }
  }

  lemma {:induction false} AudioUntouched(audio: seq<Audio>, ids: seq<nat>, legacy: Option<Key>, client: Key, i: nat)
    requires forall k :: 0 <= k < |ids| ==> ids[k] < |audio|
    requires i < |audio| && i !in ids
    ensures var r := MigrateAudio(audio, ids, legacy, client).audio; |r| == |audio| && r[i] == audio[i]
    decreases |ids|
  {
    if ids != [] {
      hide Recrypt;
      match Recrypt(audio[ids[0]].transcript, legacy, client)
      case None =>
      case Some(c) => AudioUntouched(audio[ids[0] := Audio(c, Client)], ids[1..], legacy, client, i);
    }
  }

  lemma FinishMoves(t: Tenant, client: Key, f: nat, images: nat, a: nat)
    ensures var u := Finish(t, t.wrapped, client, f, images, a).0;
            && u.frames == t.frames && u.audio == t.audio
            && ((u.apiKey == t.apiKey && u.apiSource == t.apiSource)
                || (u.apiSource == Client && See(t.apiKey, t.wrapped) != Unreadable))
  {
    FinishKeeps(t, client, f, images, a);
    hide CountFrames, CountAudio, SameTexts, NeedsNoServerKey;
    RecryptKeepsText(t.apiKey, t.wrapped, client);
  }

  /** Row by row, one batch, whatever fails in it. */
  lemma BatchRows(t: Tenant, client: Key, requested: int, uploads: map<nat, string>)
    ensures Moves(t, MigrateBatch(t, client, requested, uploads).0)
  {
    hide CountFrames, CountAudio, MigrateFrames, MigrateAudio, PendingFrames, PendingAudio, Finish, ClampLimit,
         Readable, See, NeedsNoServerKey, SameTexts;
    BatchSafe(t, client, requested, uploads);
    var limit, legacy := ClampLimit(requested), t.wrapped;
    var ids := PendingFrames(t.frames, limit, 0);
    PendingDue(t.frames, limit);
    FrameRows(t.frames, ids, legacy, client, uploads);
    var f := MigrateFrames(t.frames, ids, legacy, client, uploads);
    if f.ok {
      var rest: nat := if limit - f.migrated > 1 then limit - f.migrated else 1;
      PendingAudioInRange(t.audio, rest, 0);
      var a := MigrateAudio(t.audio, PendingAudio(t.audio, rest, 0), legacy, client);
      AudioRows(t.audio, PendingAudio(t.audio, rest, 0), legacy, client);
      if a.ok {
        FinishMoves(t.(frames := f.frames, audio := a.audio), client, f.migrated, f.imageErrors, a.migrated);
      }
    }
  }

  lemma ReadableKept(t: Tenant, u: Tenant)
    requires Moves(t, u)
    ensures DueReadable(t) <==> DueReadable(u)
    ensures |u.frames| == |t.frames|
  {
    hide Readable;
  }

  lemma NothingUnreadable(t: Tenant)
    requires NeedsNoServerKey(t)
    ensures DueReadable(t)
  {
    hide Readable;
  }

  lemma {:induction false} RunUnreadable(t: Tenant, client: Key, requests: seq<Request>)
    requires !DueReadable(t)
    ensures !DueReadable(RunBatches(t, client, requests))
    decreases |requests|
  {
    if requests != [] {
      hide MigrateBatch, DueReadable, Moves;
      var u := MigrateBatch(t, client, requests[0].limit, requests[0].uploads).0;
      BatchRows(t, client, requests[0].limit, requests[0].uploads);
      ReadableKept(t, u);
      RunUnreadable(u, client, requests[1..]);
    }
  }

  /** After the batches nothing needs the server key any more, and it is gone. */
  ghost predicate Finishes(t: Tenant, client: Key, requests: seq<Request>) {
    var u := RunBatches(t, client, requests); NeedsNoServerKey(u) && u.wrapped == None
  }

  function Movable(n: nat): (uploads: map<nat, string>)
    ensures AllIds(n, uploads)
  {
    if n == 0 then map[] else Movable(n - 1)[n - 1 := ""]
  }

  /** Main result, exact: the migration of a tenant can be brought to its end, by some sequence of batches, if and
      only if everything that still needs the server key can be decrypted with it. */
  lemma FinishExactly(t: Tenant, client: Key)
    ensures (exists requests :: Finishes(t, client, requests)) <==> DueReadable(t)
  {
    hide DueReadable, NeedsNoServerKey, RunBatches, CountFrames, CountAudio;
    if DueReadable(t) {
      var n := CountFrames(t.frames) + CountAudio(t.audio) + 1;
      var requests := Repeat(Request(1, Movable(|t.frames|)), n);
      RepeatIs(Request(1, Movable(|t.frames|)), n);
      RunFinishes(t, client, requests);
      assert Finishes(t, client, requests);
    } else {
      if exists requests :: Finishes(t, client, requests) {
        var requests :| Finishes(t, client, requests);
        RunUnreadable(t, client, requests);
        NothingUnreadable(RunBatches(t, client, requests));
      }
    }
  }

  // ----- Where progress stops -----

  /** The due rows start with readable ones whose images cannot be moved, and then come to an end or to a row
      with an undecryptable column. */
  ghost predicate Blocked(frames: seq<Frame>, ids: seq<nat>, legacy: Option<Key>, uploads: map<nat, string>)
    requires Due(frames, ids)
  {
    exists k: nat :: BlockedAt(frames, ids, legacy, uploads, k)
  }

  ghost predicate BlockedAt(frames: seq<Frame>, ids: seq<nat>, legacy: Option<Key>, uploads: map<nat, string>, k: nat)
    requires Due(frames, ids)
  {
    && k <= |ids|
    && (forall i :: 0 <= i < k ==> Readable(frames[ids[i]], legacy) && Unmovable(frames[ids[i]], ids[i], uploads))
    && (k == |ids| || !Readable(frames[ids[k]], legacy))
  }

  lemma BlockedCons(frames: seq<Frame>, ids: seq<nat>, legacy: Option<Key>, uploads: map<nat, string>)
    requires Due(frames, ids) && ids != [] && Due(frames, ids[1..])
    ensures Blocked(frames, ids, legacy, uploads)
            <==> if !Readable(frames[ids[0]], legacy) then true
                 else Unmovable(frames[ids[0]], ids[0], uploads) && Blocked(frames, ids[1..], legacy, uploads)
  {
    hide Readable, Unmovable, BlockedAt;
    if !Readable(frames[ids[0]], legacy) {
      BlockedFirst(frames, ids, legacy, uploads);
    } else {
      if Blocked(frames, ids, legacy, uploads) {
        var k: nat :| BlockedAt(frames, ids, legacy, uploads, k);
        BlockedNext(frames, ids, legacy, uploads, k);
      }
      if Unmovable(frames[ids[0]], ids[0], uploads) && Blocked(frames, ids[1..], legacy, uploads) {
        var k: nat :| BlockedAt(frames, ids[1..], legacy, uploads, k);
        BlockedLonger(frames, ids, legacy, uploads, k);
      }
    }
  }

  lemma BlockedFirst(frames: seq<Frame>, ids: seq<nat>, legacy: Option<Key>, uploads: map<nat, string>)
    requires Due(frames, ids) && ids != [] && !Readable(frames[ids[0]], legacy)
    ensures BlockedAt(frames, ids, legacy, uploads, 0)
  {
    hide Readable, Unmovable;
  }

  lemma BlockedNext(frames: seq<Frame>, ids: seq<nat>, legacy: Option<Key>, uploads: map<nat, string>, k: nat)
    requires Due(frames, ids) && ids != [] && Due(frames, ids[1..]) && Readable(frames[ids[0]], legacy)
    requires BlockedAt(frames, ids, legacy, uploads, k)
    ensures k > 0 && Unmovable(frames[ids[0]], ids[0], uploads)
            && BlockedAt(frames, ids[1..], legacy, uploads, k - 1)
  {
    hide Readable, Unmovable;
    assert forall i :: 0 <= i < |ids| - 1 ==> ids[1..][i] == ids[i + 1];
  }

  lemma BlockedLonger(frames: seq<Frame>, ids: seq<nat>, legacy: Option<Key>, uploads: map<nat, string>, k: nat)
    requires Due(frames, ids) && ids != [] && Due(frames, ids[1..]) && BlockedAt(frames, ids[1..], legacy, uploads, k)
    requires Readable(frames[ids[0]], legacy) && Unmovable(frames[ids[0]], ids[0], uploads)
    ensures BlockedAt(frames, ids, legacy, uploads, k + 1)
  {
    hide Readable, Unmovable;
    assert forall i :: 0 < i < |ids| ==> ids[i] == ids[1..][i - 1];
  }

  lemma {:induction false} PassBlocked(frames: seq<Frame>, ids: seq<nat>, legacy: Option<Key>, client: Key,
                                       uploads: map<nat, string>)
    requires Due(frames, ids)
    ensures MigrateFrames(frames, ids, legacy, client, uploads).migrated == 0
            <==> Blocked(frames, ids, legacy, uploads)
    decreases |ids|
  {
    if ids == [] {
      assert BlockedAt(frames, ids, legacy, uploads, 0);
    } else {
      hide MigrateFrame, Readable, Unmovable, Blocked;
      DueTail(frames, ids);
      RowOutcome(frames[ids[0]], ids[0], legacy, client, uploads);
      BlockedCons(frames, ids, legacy, uploads);
      if MigrateFrame(frames[ids[0]], ids[0], legacy, client, uploads).ImageFailed? {
        PassBlocked(frames, ids[1..], legacy, client, uploads);
      }
    }
  }

  /** Main result, exact, for any data: a batch migrates no frame if and only if the due rows in its reach start
      with readable ones whose images cannot be moved, up to their end or to a row with an undecryptable column.
      Such rows stay first in line, so later rows wait behind them. */
  lemma StuckExactly(t: Tenant, client: Key, requested: int, uploads: map<nat, string>)
    ensures var ids := PendingFrames(t.frames, ClampLimit(requested), 0);
            var (u, r) := MigrateBatch(t, client, requested, uploads);
            && Due(t.frames, ids)
            && (CountFrames(u.frames) == CountFrames(t.frames) <==> Blocked(t.frames, ids, t.wrapped, uploads))
  {
    hide CountFrames, CountAudio, MigrateFrames, MigrateAudio, PendingFrames, PendingAudio, Finish, ClampLimit, Blocked;
    var limit, legacy := ClampLimit(requested), t.wrapped;
    var ids := PendingFrames(t.frames, limit, 0);
    PendingDue(t.frames, limit);
    FramesPass(t.frames, ids, legacy, client, uploads);
    PassBlocked(t.frames, ids, legacy, client, uploads);
    var f := MigrateFrames(t.frames, ids, legacy, client, uploads);
    var rest: nat := if limit - f.migrated > 1 then limit - f.migrated else 1;
    PendingAudioInRange(t.audio, rest, 0);
    var a := MigrateAudio(t.audio, PendingAudio(t.audio, rest, 0), legacy, client);
    FinishKeeps(t.(frames := f.frames, audio := a.audio), client, f.migrated, f.imageErrors, a.migrated);
  }

  lemma {:induction false} FirstDue(frames: seq<Frame>, limit: nat, offset: nat, i: nat)
    requires i < |frames| && limit >= 1 && frames[i].source != Client
    requires forall j :: 0 <= j < i ==> frames[j].source == Client
    ensures PendingFrames(frames, limit, offset) != [] && PendingFrames(frames, limit, offset)[0] == offset + i
  {
    if i > 0 {
      FirstDue(frames[1..], limit, offset + 1, i - 1);
    }
  }

  /** The other failing input: while the first due row has an undecryptable column, every batch fails and no run
      of batches changes anything, although no image may be in the way. */
  lemma {:induction false} UnreadableRowBlocks(t: Tenant, client: Key, requests: seq<Request>, i: nat)
    requires i < |t.frames| && t.frames[i].source != Client && !Readable(t.frames[i], t.wrapped)
    requires forall j :: 0 <= j < i ==> t.frames[j].source == Client
    ensures RunBatches(t, client, requests) == t
    decreases |requests|
  {
    if requests != [] {
      var r := requests[0];
      UnreadableBatch(t, client, r.limit, r.uploads, i);
      hide MigrateBatch, Readable;
      UnreadableRowBlocks(t, client, requests[1..], i);
    }
  }

  lemma UnreadableBatch(t: Tenant, client: Key, requested: int, uploads: map<nat, string>, i: nat)
    requires i < |t.frames| && t.frames[i].source != Client && !Readable(t.frames[i], t.wrapped)
    requires forall j :: 0 <= j < i ==> t.frames[j].source == Client
    ensures MigrateBatch(t, client, requested, uploads) == (t, Failed)
  {
    hide MigrateFrame, PendingFrames, Readable, ClampLimit, Finish;
    LimitPositive(requested);
    PendingDue(t.frames, ClampLimit(requested));
    FirstDue(t.frames, ClampLimit(requested), 0, i);
    RowOutcome(t.frames[i], i, t.wrapped, client, uploads);
  }
}
