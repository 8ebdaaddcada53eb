/** What one batch of the key migration does to each row, in terms of the keys the columns are stored under and of
    the row's place among the due ones. */
module MigrationKeys {
  import opened Collections
  import opened Options
  import opened KeyMigration

  // ----- Columns by their keys -----

  /** An empty column, or one stored under the master key or under the tenant's server key. */
  predicate Opens(c: Option<Cipher>, legacy: Option<Key>) {
    c.None? || c.value.key == MasterKey || legacy == Some(c.value.key)
  }

  function Under(c: Option<Cipher>, client: Key): Option<Cipher> {
    if c.None? then None else Some(Cipher(client, c.value.plain))
  }

  /** A column is re-encrypted, with its own text, if and only if it is under the master key or the server key. */
  lemma RecryptExactly(k: Key, text: string, legacy: Option<Key>, client: Key)
    ensures Recrypt(None, legacy, client) == Some(None)
    ensures Recrypt(Some(Cipher(k, text)), legacy, client)
            == if k == MasterKey || legacy == Some(k) then Some(Some(Cipher(client, text))) else None
  {
  }

  /** A reader who holds a key, or none, sees the text of exactly the columns under that key or the master key. */
  lemma SeeExactly(k: Key, text: string, key: Option<Key>)
    ensures See(None, key) == Null
    ensures See(Some(Cipher(k, text)), key) == if k == MasterKey || key == Some(k) then Text(text) else Unreadable
  {
  }

  lemma ColumnExactly(c: Option<Cipher>, legacy: Option<Key>, client: Key)
    ensures Recrypt(c, legacy, client) == if Opens(c, legacy) then Some(Under(c, client)) else None
    ensures See(c, legacy) != Unreadable <==> Opens(c, legacy)
  {
  }

  predicate FrameOpens(f: Frame, legacy: Option<Key>) {
    Opens(f.window, legacy) && Opens(f.ocr, legacy) && Opens(f.urls, legacy) && Opens(f.activity, legacy)
  }

  /** A row whose image, if it has one, cannot be moved stays behind. */
  predicate ImageMoves(f: Frame, id: nat, uploads: map<nat, string>) {
    f.imageKey.Some? ==> id in uploads
  }

  function MovedFrame(f: Frame, id: nat, client: Key, uploads: map<nat, string>): Frame
    requires ImageMoves(f, id, uploads)
  {
    Frame(Under(f.window, client), Under(f.ocr, client), Under(f.urls, client), Under(f.activity, client),
          if f.imageKey.Some? then Some(uploads[id]) else None, Client)
  }

  lemma RowExactly(f: Frame, id: nat, legacy: Option<Key>, client: Key, uploads: map<nat, string>)
    ensures var r := MigrateFrame(f, id, legacy, client, uploads);
            && (r.Abort? <==> !FrameOpens(f, legacy))
            && (r.Migrated? <==> FrameOpens(f, legacy) && ImageMoves(f, id, uploads))
            && (r.Migrated? ==> r.frame == MovedFrame(f, id, client, uploads))
  {
    ColumnExactly(f.window, legacy, client);
    ColumnExactly(f.ocr, legacy, client);
    ColumnExactly(f.urls, legacy, client);
    ColumnExactly(f.activity, legacy, client);
    hide Recrypt, Opens, Under, See;
  }

  // ----- The two loops -----

  ghost predicate OpenTo(frames: seq<Frame>, ids: seq<nat>, legacy: Option<Key>, k: nat)
    requires Due(frames, ids) && k <= |ids|
  {
    forall j :: 0 <= j < k ==> FrameOpens(frames[ids[j]], legacy)
  }

  lemma OpenToCons(frames: seq<Frame>, ids: seq<nat>, legacy: Option<Key>, k: nat)
    requires Due(frames, ids) && ids != [] && Due(frames, ids[1..]) && k < |ids|
    ensures OpenTo(frames, ids, legacy, k + 1)
            <==> FrameOpens(frames[ids[0]], legacy) && OpenTo(frames, ids[1..], legacy, k)
  {
    hide FrameOpens;
    assert forall j :: 0 <= j < k ==> ids[1..][j] == ids[j + 1];
    if FrameOpens(frames[ids[0]], legacy) && OpenTo(frames, ids[1..], legacy, k) {
      forall j | 0 <= j < k + 1 ensures FrameOpens(frames[ids[j]], legacy) {
        if j > 0 { assert ids[j] == ids[1..][j - 1]; }
      }
    }
  }

  lemma OpenToNone(frames: seq<Frame>, ids: seq<nat>, legacy: Option<Key>)
    requires Due(frames, ids)
    ensures OpenTo(frames, ids, legacy, 0)
  {
  }

  lemma OpenToSame(a: seq<Frame>, b: seq<Frame>, ids: seq<nat>, legacy: Option<Key>, k: nat)
    requires Due(a, ids) && Due(b, ids) && k <= |ids| && forall j :: 0 <= j < |ids| ==> a[ids[j]] == b[ids[j]]
    ensures OpenTo(a, ids, legacy, k) <==> OpenTo(b, ids, legacy, k)
  {
    hide FrameOpens;
  }

  lemma {:induction false} PassOk(frames: seq<Frame>, ids: seq<nat>, legacy: Option<Key>, client: Key,
                                  uploads: map<nat, string>)
    requires Due(frames, ids)
    ensures MigrateFrames(frames, ids, legacy, client, uploads).ok <==> OpenTo(frames, ids, legacy, |ids|)
    decreases |ids|
  {
    if ids != [] {
      var f, rest := frames[ids[0]], ids[1..];
      DueTail(frames, ids);
      OpenToCons(frames, ids, legacy, |rest|);
      RowExactly(f, ids[0], legacy, client, uploads);
      hide MigrateFrame, FrameOpens, ImageMoves, OpenTo;
      match MigrateFrame(f, ids[0], legacy, client, uploads)
      case Abort =>
      case ImageFailed => PassOk(frames, rest, legacy, client, uploads);
      case Migrated(g) =>
        NextDue(frames, ids, g);
        PassOk(frames[ids[0] := g], rest, legacy, client, uploads);
        OpenToSame(frames, frames[ids[0] := g], rest, legacy, |rest|);
    }
  }

  lemma NextDue(frames: seq<Frame>, ids: seq<nat>, g: Frame)
    requires ids != [] && Due(frames, ids)
    ensures Due(frames[ids[0] := g], ids[1..])
    ensures forall j :: 0 <= j < |ids| - 1 ==> frames[ids[0] := g][ids[1..][j]] == frames[ids[1..][j]]
  {
    forall j | 0 <= j < |ids| - 1 ensures ids[1..][j] == ids[j + 1] != ids[0] {}
  }

  /** The row of one id after the frame loop. */
  lemma {:induction false} PassAt(frames: seq<Frame>, ids: seq<nat>, legacy: Option<Key>, client: Key,
                                  uploads: map<nat, string>, k: nat)
    requires Due(frames, ids) && k < |ids|
    ensures var out, f := MigrateFrames(frames, ids, legacy, client, uploads).frames, frames[ids[k]];
            && |out| == |frames|
            && out[ids[k]] == if OpenTo(frames, ids, legacy, k + 1) && ImageMoves(f, ids[k], uploads)
                              then MovedFrame(f, ids[k], client, uploads) else f
    decreases |ids|
  {
    hide MigrateFrame, FrameOpens, ImageMoves, MovedFrame, OpenTo;
    var f, rest := frames[ids[0]], ids[1..];
    DueTail(frames, ids);
    OpenToCons(frames, ids, legacy, k);
    OpenToNone(frames, rest, legacy);
    RowExactly(f, ids[0], legacy, client, uploads);
    match MigrateFrame(f, ids[0], legacy, client, uploads)
    case Abort =>
    case ImageFailed =>
      if k == 0 {
        UntouchedStays(frames, rest, legacy, client, uploads, ids[0]);
      } else {
        PassAt(frames, rest, legacy, client, uploads, k - 1);
      }
    case Migrated(g) =>
      NextDue(frames, ids, g);
      if k == 0 {
        UntouchedStays(frames[ids[0] := g], rest, legacy, client, uploads, ids[0]);
      } else {
        PassAt(frames[ids[0] := g], rest, legacy, client, uploads, k - 1);
        OpenToSame(frames, frames[ids[0] := g], rest, legacy, k);
      }
  }

  ghost predicate DueAudio(audio: seq<Audio>, ids: seq<nat>) {
    && (forall i :: 0 <= i < |ids| ==> ids[i] < |audio|)
    && (forall i, j :: 0 <= i < j < |ids| ==> ids[i] != ids[j])
  }

  ghost predicate HeardTo(audio: seq<Audio>, ids: seq<nat>, legacy: Option<Key>, k: nat)
    requires DueAudio(audio, ids) && k <= |ids|
  {
    forall j :: 0 <= j < k ==> Opens(audio[ids[j]].transcript, legacy)
  }

  lemma HeardToCons(audio: seq<Audio>, ids: seq<nat>, legacy: Option<Key>, k: nat, a: Audio)
    requires DueAudio(audio, ids) && ids != [] && k < |ids|
    ensures var next := audio[ids[0] := a];
            DueAudio(next, ids[1..])
            && (HeardTo(audio, ids, legacy, k + 1)
                <==> Opens(audio[ids[0]].transcript, legacy) && HeardTo(next, ids[1..], legacy, k))
  {
    hide Opens;
    var next := audio[ids[0] := a];
    assert forall j :: 0 <= j < |ids| - 1 ==> ids[1..][j] == ids[j + 1] != ids[0];
    if Opens(audio[ids[0]].transcript, legacy) && HeardTo(next, ids[1..], legacy, k) {
      forall j | 0 <= j < k + 1 ensures Opens(audio[ids[j]].transcript, legacy) {
        if j > 0 { assert ids[j] == ids[1..][j - 1]; }
      }
    }
  }

  lemma {:induction false} HeardOk(audio: seq<Audio>, ids: seq<nat>, legacy: Option<Key>, client: Key)
    requires DueAudio(audio, ids)
    ensures MigrateAudio(audio, ids, legacy, client).ok <==> HeardTo(audio, ids, legacy, |ids|)
    decreases |ids|
  {
    if ids != [] {
      var a := audio[ids[0]];
      ColumnExactly(a.transcript, legacy, client);
      var next := Audio(Under(a.transcript, client), Client);
      HeardToCons(audio, ids, legacy, |ids| - 1, next);
      hide Recrypt, Opens, Under, HeardTo;
      if Recrypt(a.transcript, legacy, client).Some? {
        HeardOk(audio[ids[0] := next], ids[1..], legacy, client);
      }
    }
  }

  lemma {:induction false} HeardAt(audio: seq<Audio>, ids: seq<nat>, legacy: Option<Key>, client: Key, k: nat)
    requires DueAudio(audio, ids) && k < |ids|
    ensures var out, a := MigrateAudio(audio, ids, legacy, client).audio, audio[ids[k]];
            && |out| == |audio|
            && out[ids[k]] == if HeardTo(audio, ids, legacy, k + 1) then Audio(Under(a.transcript, client), Client)
                              else a
    decreases |ids|
  {
    var a := audio[ids[0]];
    ColumnExactly(a.transcript, legacy, client);
    var next := Audio(Under(a.transcript, client), Client);
    HeardToCons(audio, ids, legacy, k, next);
    hide Recrypt, Opens, Under;
    if Recrypt(a.transcript, legacy, client).Some? {
      if k == 0 {
        AudioUntouched(audio[ids[0] := next], ids[1..], legacy, client, ids[0]);
      } else {
        HeardAt(audio[ids[0] := next], ids[1..], legacy, client, k - 1);
      }
    }
  }

  // ----- Which rows a batch takes -----

  /** The rows before a place that are still under the server key. */
  ghost function DueBefore(frames: seq<Frame>, i: nat): set<nat>
    requires i <= |frames|
  {
    set j: nat | j < i && frames[j].source == Server
  }

  ghost function AudioDueBefore(audio: seq<Audio>, i: nat): set<nat>
    requires i <= |audio|
  {
    set j: nat | j < i && audio[j].source == Server
  }

  /** Among the first `limit` due rows. */
  ghost predicate Selected(frames: seq<Frame>, limit: nat, i: nat) {
    i < |frames| && frames[i].source == Server && |DueBefore(frames, i)| < limit
  }

  ghost predicate AudioSelected(audio: seq<Audio>, limit: nat, i: nat) {
    i < |audio| && audio[i].source == Server && |AudioDueBefore(audio, i)| < limit
  }

  lemma {:induction false} CountIs(frames: seq<Frame>, i: nat)
    requires i <= |frames|
    ensures CountFrames(frames[..i]) == |DueBefore(frames, i)|
  {
    if i > 0 {
      CountIs(frames, i - 1);
      CountMore(frames[..i]);
      assert frames[..i][..i - 1] == frames[..i - 1];
      if frames[i - 1].source == Server {
        assert DueBefore(frames, i) == DueBefore(frames, i - 1) + {i - 1};
      } else {
        assert DueBefore(frames, i) == DueBefore(frames, i - 1);
      }
    }
  }

  lemma {:induction false} CountMore(frames: seq<Frame>)
    requires frames != []
    ensures var n := |frames| - 1;
            CountFrames(frames) == CountFrames(frames[..n]) + if frames[n].source == Server then 1 else 0
  {
    var n := |frames| - 1;
    if n > 0 {
      CountMore(frames[1..]);
      assert frames[1..][..n - 1] == frames[..n][1..];
    }
  }

  lemma {:induction false} PendingMember(frames: seq<Frame>, limit: nat, offset: nat, i: nat)
    requires offset <= i < offset + |frames|
    ensures i in PendingFrames(frames, limit, offset) <==>
              frames[i - offset].source == Server && CountFrames(frames[..i - offset]) < limit
  {
    if limit > 0 {
      PendingFramesCons(frames, limit, offset);
      var left := if frames[0].source == Server then limit - 1 else limit;
      PendingFramesInRange(frames[1..], left, offset + 1);
      if i > offset {
        PendingMember(frames[1..], left, offset + 1, i);
        var front := frames[..i - offset];
        assert front[1..] == frames[1..][..i - (offset + 1)] && front[0] == frames[0];
      }
    }
  }

  /** A due row stands in the list of ids after exactly the due rows before it. */
  lemma SelectedIs(frames: seq<Frame>, limit: nat, i: nat)
    ensures i in PendingFrames(frames, limit, 0) <==> Selected(frames, limit, i)
  {
    if i < |frames| {
      PendingMember(frames, limit, 0, i);
      CountIs(frames, i);
    } else {
      PendingFramesInRange(frames, limit, 0);
    }
  }

  lemma {:induction false} AudioCountIs(audio: seq<Audio>, i: nat)
    requires i <= |audio|
    ensures CountAudio(audio[..i]) == |AudioDueBefore(audio, i)|
  {
    if i > 0 {
      AudioCountIs(audio, i - 1);
      AudioCountMore(audio[..i]);
      assert audio[..i][..i - 1] == audio[..i - 1];
      if audio[i - 1].source == Server {
        assert AudioDueBefore(audio, i) == AudioDueBefore(audio, i - 1) + {i - 1};
      } else {
        assert AudioDueBefore(audio, i) == AudioDueBefore(audio, i - 1);
      }
    }
  }

  lemma {:induction false} AudioCountMore(audio: seq<Audio>)
    requires audio != []
    ensures var n := |audio| - 1;
            CountAudio(audio) == CountAudio(audio[..n]) + if audio[n].source == Server then 1 else 0
  {
    var n := |audio| - 1;
    if n > 0 {
      AudioCountMore(audio[1..]);
      assert audio[1..][..n - 1] == audio[..n][1..];
    }
  }

  lemma {:induction false} AudioPendingMember(audio: seq<Audio>, limit: nat, offset: nat, i: nat)
    requires offset <= i < offset + |audio|
    ensures i in PendingAudio(audio, limit, offset) <==>
              audio[i - offset].source == Server && CountAudio(audio[..i - offset]) < limit
  {
    if limit > 0 {
      PendingAudioCons(audio, limit, offset);
      var left := if audio[0].source == Server then limit - 1 else limit;
      PendingAudioInRange(audio[1..], left, offset + 1);
      if i > offset {
        AudioPendingMember(audio[1..], left, offset + 1, i);
        var front := audio[..i - offset];
        assert front[1..] == audio[1..][..i - (offset + 1)] && front[0] == audio[0];
      }
    }
  }

  lemma AudioSelectedIs(audio: seq<Audio>, limit: nat, i: nat)
    ensures i in PendingAudio(audio, limit, 0) <==> AudioSelected(audio, limit, i)
  {
    if i < |audio| {
      AudioPendingMember(audio, limit, 0, i);
      AudioCountIs(audio, i);
    } else {
      PendingAudioInRange(audio, limit, 0);
    }
  }

  // ----- One batch, exactly -----

  /** Every row up to this one that is still under the server key can be decrypted. */
  ghost predicate OpenUpTo(frames: seq<Frame>, legacy: Option<Key>, i: nat)
    requires i < |frames|
  {
    forall j: nat :: j <= i && frames[j].source == Server ==> FrameOpens(frames[j], legacy)
  }

  ghost predicate HeardUpTo(audio: seq<Audio>, legacy: Option<Key>, i: nat)
    requires i < |audio|
  {
    forall j: nat :: j <= i && audio[j].source == Server ==> Opens(audio[j].transcript, legacy)
  }

  lemma OpenToIs(frames: seq<Frame>, limit: nat, legacy: Option<Key>, k: nat)
    requires var ids := PendingFrames(frames, limit, 0); Due(frames, ids) && k < |ids|
    ensures var ids := PendingFrames(frames, limit, 0);
            OpenTo(frames, ids, legacy, k + 1) <==> OpenUpTo(frames, legacy, ids[k])
  {
    var ids := PendingFrames(frames, limit, 0);
    PendingFramesInRange(frames, limit, 0);
    SelectedIs(frames, limit, ids[k]);
    hide PendingFrames, FrameOpens;
    if OpenTo(frames, ids, legacy, k + 1) {
      forall j: nat | j <= ids[k] && frames[j].source == Server ensures FrameOpens(frames[j], legacy) {
        SubsetSize(DueBefore(frames, j), DueBefore(frames, ids[k]));
        SelectedIs(frames, limit, j);
        var m :| 0 <= m < |ids| && ids[m] == j;
        assert m <= k;
      }
    }
    if OpenUpTo(frames, legacy, ids[k]) {
      forall m | 0 <= m < k + 1 ensures FrameOpens(frames[ids[m]], legacy) {
        assert ids[m] <= ids[k];
      }
    }
  }

  lemma HeardToIs(audio: seq<Audio>, limit: nat, legacy: Option<Key>, k: nat)
    requires var ids := PendingAudio(audio, limit, 0); DueAudio(audio, ids) && k < |ids|
    ensures var ids := PendingAudio(audio, limit, 0);
            HeardTo(audio, ids, legacy, k + 1) <==> HeardUpTo(audio, legacy, ids[k])
  {
    var ids := PendingAudio(audio, limit, 0);
    PendingAudioInRange(audio, limit, 0);
    AudioSelectedIs(audio, limit, ids[k]);
    hide PendingAudio, Opens;
    if HeardTo(audio, ids, legacy, k + 1) {
      forall j: nat | j <= ids[k] && audio[j].source == Server ensures Opens(audio[j].transcript, legacy) {
        SubsetSize(AudioDueBefore(audio, j), AudioDueBefore(audio, ids[k]));
        AudioSelectedIs(audio, limit, j);
        var m :| 0 <= m < |ids| && ids[m] == j;
        assert m <= k;
      }
    }
    if HeardUpTo(audio, legacy, ids[k]) {
      forall m | 0 <= m < k + 1 ensures Opens(audio[ids[m]].transcript, legacy) {
        assert ids[m] <= ids[k];
      }
    }
  }

  /** A batch moves a row: it is among the first due ones, it and all due rows before it can be decrypted, and its
      image can be moved. */
  ghost predicate Taken(frames: seq<Frame>, limit: nat, legacy: Option<Key>, uploads: map<nat, string>, i: nat) {
    Selected(frames, limit, i) && OpenUpTo(frames, legacy, i) && ImageMoves(frames[i], i, uploads)
  }

  ghost predicate AudioTaken(audio: seq<Audio>, limit: nat, legacy: Option<Key>, i: nat) {
    AudioSelected(audio, limit, i) && HeardUpTo(audio, legacy, i)
  }

  ghost predicate AllOpen(frames: seq<Frame>, limit: nat, legacy: Option<Key>) {
    forall i: nat :: Selected(frames, limit, i) ==> FrameOpens(frames[i], legacy)
  }

  ghost predicate AllHeard(audio: seq<Audio>, limit: nat, legacy: Option<Key>) {
    forall i: nat :: AudioSelected(audio, limit, i) ==> Opens(audio[i].transcript, legacy)
  }

  lemma FrameAfter(frames: seq<Frame>, limit: nat, legacy: Option<Key>, client: Key, uploads: map<nat, string>, i: nat)
    requires i < |frames| && Due(frames, PendingFrames(frames, limit, 0))
    ensures var out := MigrateFrames(frames, PendingFrames(frames, limit, 0), legacy, client, uploads).frames;
            && |out| == |frames|
            && out[i] == if Taken(frames, limit, legacy, uploads, i) then MovedFrame(frames[i], i, client, uploads)
                         else frames[i]
  {
    var ids := PendingFrames(frames, limit, 0);
    SelectedIs(frames, limit, i);
    hide PendingFrames, MovedFrame, ImageMoves, Selected, OpenUpTo, MigrateFrames, OpenTo;
    if i in ids {
      var k :| 0 <= k < |ids| && ids[k] == i;
      PassAt(frames, ids, legacy, client, uploads, k);
      OpenToIs(frames, limit, legacy, k);
    } else {
      UntouchedStays(frames, ids, legacy, client, uploads, i);
    }
  }

  lemma AudioAfter(audio: seq<Audio>, limit: nat, legacy: Option<Key>, client: Key, i: nat)
    requires i < |audio| && DueAudio(audio, PendingAudio(audio, limit, 0))
    ensures var out := MigrateAudio(audio, PendingAudio(audio, limit, 0), legacy, client).audio;
            && |out| == |audio|
            && out[i] == if AudioTaken(audio, limit, legacy, i) then Audio(Under(audio[i].transcript, client), Client)
                         else audio[i]
  {
    var ids := PendingAudio(audio, limit, 0);
    AudioSelectedIs(audio, limit, i);
    hide PendingAudio, AudioSelected, HeardUpTo, MigrateAudio, HeardTo, Under;
    if i in ids {
      var k :| 0 <= k < |ids| && ids[k] == i;
      HeardAt(audio, ids, legacy, client, k);
      HeardToIs(audio, limit, legacy, k);
    } else {
      AudioUntouched(audio, ids, legacy, client, i);
    }
  }

  /** The frames of a batch: which rows change, into what, how many, and whether the batch goes on. */
  lemma FramesExactly(frames: seq<Frame>, limit: nat, legacy: Option<Key>, client: Key, uploads: map<nat, string>)
    requires Due(frames, PendingFrames(frames, limit, 0))
    ensures var r := MigrateFrames(frames, PendingFrames(frames, limit, 0), legacy, client, uploads);
            && FramesMoved(frames, r.frames, limit, legacy, client, uploads)
            && (r.ok <==> AllOpen(frames, limit, legacy))
            && r.migrated == |TakenRows(frames, limit, legacy, uploads)| <= limit
  {
    var ids := PendingFrames(frames, limit, 0);
    var r := MigrateFrames(frames, ids, legacy, client, uploads);
    PassOk(frames, ids, legacy, client, uploads);
    FramesPass(frames, ids, legacy, client, uploads);
    PendingFramesInRange(frames, limit, 0);
    assert |r.frames| == |frames| by { hide *; SameLength(frames, r.frames, legacy, client); }
    AllOpenIs(frames, limit, legacy);
    hide PendingFrames, MigrateFrames, OpenTo, AllOpen, Taken, SameFrames, MovedFrame, Due;
    forall i | 0 <= i < |frames|
      ensures r.frames[i] == if Taken(frames, limit, legacy, uploads, i) then MovedFrame(frames[i], i, client, uploads)
                             else frames[i]
    {
      FrameAfter(frames, limit, legacy, client, uploads, i);
    }
    assert FramesMoved(frames, r.frames, limit, legacy, client, uploads);
    MovedCount(frames, r.frames, limit, legacy, client, uploads);
  }

  lemma SameLength(a: seq<Frame>, b: seq<Frame>, legacy: Option<Key>, client: Key)
    requires SameFrames(a, b, legacy, client)
    ensures |a| == |b|
  {
  }

  ghost predicate FramesMoved(frames: seq<Frame>, out: seq<Frame>, limit: nat, legacy: Option<Key>, client: Key,
                              uploads: map<nat, string>) {
    && |out| == |frames|
    && forall i :: 0 <= i < |frames| ==>
         out[i] == if Taken(frames, limit, legacy, uploads, i) then MovedFrame(frames[i], i, client, uploads)
                   else frames[i]
  }

  ghost function TakenRows(frames: seq<Frame>, limit: nat, legacy: Option<Key>, uploads: map<nat, string>): set<nat> {
    set i: nat | i < |frames| && Taken(frames, limit, legacy, uploads, i)
  }

  lemma AllOpenIs(frames: seq<Frame>, limit: nat, legacy: Option<Key>)
    requires Due(frames, PendingFrames(frames, limit, 0))
    ensures var ids := PendingFrames(frames, limit, 0);
            OpenTo(frames, ids, legacy, |ids|) <==> AllOpen(frames, limit, legacy)
  {
    var ids := PendingFrames(frames, limit, 0);
    forall i: nat ensures i in ids <==> Selected(frames, limit, i) {
      SelectedIs(frames, limit, i);
    }
    hide PendingFrames, FrameOpens, Selected;
    if AllOpen(frames, limit, legacy) {
      forall j | 0 <= j < |ids| ensures FrameOpens(frames[ids[j]], legacy) {
        assert ids[j] in ids;
      }
    }
  }

  lemma AllHeardIs(audio: seq<Audio>, limit: nat, legacy: Option<Key>)
    requires DueAudio(audio, PendingAudio(audio, limit, 0))
    ensures var ids := PendingAudio(audio, limit, 0);
            HeardTo(audio, ids, legacy, |ids|) <==> AllHeard(audio, limit, legacy)
  {
    var ids := PendingAudio(audio, limit, 0);
    forall i: nat ensures i in ids <==> AudioSelected(audio, limit, i) {
      AudioSelectedIs(audio, limit, i);
    }
    hide PendingAudio, Opens, AudioSelected;
    if AllHeard(audio, limit, legacy) {
      forall j | 0 <= j < |ids| ensures Opens(audio[ids[j]].transcript, legacy) {
        assert ids[j] in ids;
      }
    }
  }

  /** What leaves the pending count are the rows moved. */
  lemma MovedCount(frames: seq<Frame>, out: seq<Frame>, limit: nat, legacy: Option<Key>, client: Key,
                   uploads: map<nat, string>)
    requires FramesMoved(frames, out, limit, legacy, client, uploads)
    ensures CountFrames(frames) == CountFrames(out) + |TakenRows(frames, limit, legacy, uploads)|
  {
    var n := |frames|;
    CountIs(frames, n);
    CountIs(out, n);
    assert frames[..n] == frames && out[..n] == out;
    var before, after, taken := DueBefore(frames, n), DueBefore(out, n), TakenRows(frames, limit, legacy, uploads);
    hide OpenUpTo, ImageMoves, CountFrames;
    assert after == before - taken;
    assert taken <= before;
  }

  lemma AudioExactly(audio: seq<Audio>, limit: nat, legacy: Option<Key>, client: Key)
    requires DueAudio(audio, PendingAudio(audio, limit, 0))
    ensures var r := MigrateAudio(audio, PendingAudio(audio, limit, 0), legacy, client);
            && AudioMoved(audio, r.audio, limit, legacy, client)
            && (r.ok <==> AllHeard(audio, limit, legacy))
  {
    var ids := PendingAudio(audio, limit, 0);
    var r := MigrateAudio(audio, ids, legacy, client);
    HeardOk(audio, ids, legacy, client);
    AllHeardIs(audio, limit, legacy);
    AudioLength(audio, ids, legacy, client);
    hide PendingAudio, MigrateAudio, HeardTo, AllHeard, AudioTaken, Under, DueAudio;
    forall i | 0 <= i < |audio|
      ensures r.audio[i] == if AudioTaken(audio, limit, legacy, i)
                            then Audio(Under(audio[i].transcript, client), Client) else audio[i]
    {
      AudioAfter(audio, limit, legacy, client, i);
    }
  }

  lemma {:induction false} AudioLength(audio: seq<Audio>, ids: seq<nat>, legacy: Option<Key>, client: Key)
    requires forall k :: 0 <= k < |ids| ==> ids[k] < |audio|
    ensures |MigrateAudio(audio, ids, legacy, client).audio| == |audio|
    decreases |ids|
  {
    if ids != [] {
      hide Recrypt;
      match Recrypt(audio[ids[0]].transcript, legacy, client)
      case None =>
      case Some(c) => AudioLength(audio[ids[0] := Audio(c, Client)], ids[1..], legacy, client);
    }
  }

  ghost predicate AudioMoved(audio: seq<Audio>, out: seq<Audio>, limit: nat, legacy: Option<Key>, client: Key) {
    && |out| == |audio|
    && forall i :: 0 <= i < |audio| ==>
         out[i] == if AudioTaken(audio, limit, legacy, i) then Audio(Under(audio[i].transcript, client), Client)
                   else audio[i]
  }

  /** The room for transcripts: what the moved frames left of the limit, and at least one. */
  ghost function Room(t: Tenant, limit: nat, uploads: map<nat, string>): nat {
    var moved := |TakenRows(t.frames, limit, t.wrapped, uploads)|;
    if limit > moved + 1 then limit - moved else 1
  }

  ghost predicate ApiDue(t: Tenant) { t.apiKey.Some? && t.apiSource == Server }

  /** What one batch makes of every frame, every transcript and the API key, when it fails, and when the wrapped
      key goes. */
  ghost predicate Outcome(t: Tenant, client: Key, limit: nat, uploads: map<nat, string>, u: Tenant, r: Report) {
    var seen := AllOpen(t.frames, limit, t.wrapped);
    var room := Room(t, limit, uploads);
    && FramesMoved(t.frames, u.frames, limit, t.wrapped, client, uploads)
    && (if seen then AudioMoved(t.audio, u.audio, room, t.wrapped, client) else u.audio == t.audio)
    && (r.Failed? <==> !seen || !AllHeard(t.audio, room, t.wrapped) || (ApiDue(t) && !Opens(t.apiKey, t.wrapped)))
    && Ending(t, u, r, client)
    && (r.Batch? ==> r.migratedFrames == |TakenRows(t.frames, limit, t.wrapped, uploads)|)
  }

  /** The API key moves with a batch that does not fail, and the wrapped key goes with one that leaves nothing. */
  ghost predicate Ending(t: Tenant, u: Tenant, r: Report, client: Key) {
    && (if r.Batch? && ApiDue(t) then u.apiKey == Under(t.apiKey, client) && u.apiSource == Client
        else u.apiKey == t.apiKey && u.apiSource == t.apiSource)
    && (if r.Batch? && NeedsNoServerKey(u) then u.wrapped == None && u.source == Client
        else u.wrapped == t.wrapped && u.source == t.source)
    && (r.Batch? ==> r.migratedApiKey == ApiDue(t) && r.keyRemoved == NeedsNoServerKey(u))
  }

  /** A batch is its frame loop, then its transcript loop, then its end. */
  lemma BatchShape(t: Tenant, client: Key, requested: int, uploads: map<nat, string>, f: FramePass, room: nat)
    requires var ids := PendingFrames(t.frames, ClampLimit(requested), 0);
             Due(t.frames, ids) && f == MigrateFrames(t.frames, ids, t.wrapped, client, uploads)
    requires room == if ClampLimit(requested) > f.migrated + 1 then ClampLimit(requested) - f.migrated else 1
    requires DueAudio(t.audio, PendingAudio(t.audio, room, 0))
    ensures var b, t1 := MigrateBatch(t, client, requested, uploads), t.(frames := f.frames);
            var a := MigrateAudio(t.audio, PendingAudio(t.audio, room, 0), t.wrapped, client);
            b == if !f.ok then (t1, Failed) else if !a.ok then (t1.(audio := a.audio), Failed)
                 else Finish(t1.(audio := a.audio), t.wrapped, client, f.migrated, f.imageErrors, a.migrated)
  {
    hide PendingFrames, PendingAudio, MigrateFrames, MigrateAudio, Finish, ClampLimit;
  }

  /** Main result, exact: the outcome of one batch. */
  lemma BatchExactly(t: Tenant, client: Key, requested: int, uploads: map<nat, string>)
    ensures var (u, r) := MigrateBatch(t, client, requested, uploads);
            Outcome(t, client, if requested < 1 then 1 else if requested > 2000 then 2000 else requested, uploads, u, r)
  {
    var limit := ClampLimit(requested);
    PendingDue(t.frames, limit);
    FramesExactly(t.frames, limit, t.wrapped, client, uploads);
    var f := MigrateFrames(t.frames, PendingFrames(t.frames, limit, 0), t.wrapped, client, uploads);
    var room := Room(t, limit, uploads);
    PendingAudioInRange(t.audio, room, 0);
    AudioExactly(t.audio, room, t.wrapped, client);
    BatchShape(t, client, requested, uploads, f, room);
    var a := MigrateAudio(t.audio, PendingAudio(t.audio, room, 0), t.wrapped, client);
    hide FramesMoved, AudioMoved, AllOpen, AllHeard, TakenRows, MigrateFrames, MigrateAudio, Ending, MigrateBatch,
      PendingFrames, PendingAudio, Finish, Opens, ApiDue, Due, Room;
    NoEnding(t, t.(frames := f.frames), client);
    if f.ok {
      var t2 := t.(frames := f.frames, audio := a.audio);
      NoEnding(t, t2, client);
      FinishIs(t2, client, f.migrated, f.imageErrors, a.migrated);
      EndingSame(t, t2, client);
    }
  }

  lemma NoEnding(t: Tenant, u: Tenant, client: Key)
    requires u == t.(frames := u.frames, audio := u.audio)
    ensures Ending(t, u, Failed, client)
  {
  }

  lemma EndingSame(t: Tenant, t2: Tenant, client: Key)
    requires t2 == t.(frames := t2.frames, audio := t2.audio)
    ensures ApiDue(t) == ApiDue(t2)
    ensures forall u, r :: Ending(t2, u, r, client) ==> Ending(t, u, r, client)
  {
  }

  lemma FinishIs(t: Tenant, client: Key, f: nat, images: nat, a: nat)
    ensures var (u, r) := Finish(t, t.wrapped, client, f, images, a);
            && u.frames == t.frames && u.audio == t.audio
            && (r.Failed? <==> ApiDue(t) && !Opens(t.apiKey, t.wrapped))
            && Ending(t, u, r, client)
            && (r.Batch? ==> r.migratedFrames == f)
  {
    ColumnExactly(t.apiKey, t.wrapped, client);
    var u := Finish(t, t.wrapped, client, f, images, a).0;
    NothingLeft(u);
    NeedsNothing(u);
    hide CountFrames, CountAudio, NeedsNoServerKey, Opens, Under, Recrypt, See;
  }

  lemma NeedsNothing(t: Tenant)
    ensures NeedsNoServerKey(t) ==> CountFrames(t.frames) == 0 && CountAudio(t.audio) == 0 && CountApiKey(t) == 0
  {
    if NeedsNoServerKey(t) {
      NothingPending(t.frames, 1, 0);
      NoAudioPending(t.audio, 1, 0);
    }
  }

  // ----- Runs, by keys -----

  /** Every column still under the server key's label is empty or stored under the master key or that key. */
  ghost predicate DueByKeys(t: Tenant) {
    && (forall i :: 0 <= i < |t.frames| && t.frames[i].source == Server ==> FrameOpens(t.frames[i], t.wrapped))
    && (forall i :: 0 <= i < |t.audio| && t.audio[i].source == Server ==> Opens(t.audio[i].transcript, t.wrapped))
    && (t.apiSource == Server ==> Opens(t.apiKey, t.wrapped))
  }

  lemma ReadableIs(f: Frame, legacy: Option<Key>)
    ensures Readable(f, legacy) <==> FrameOpens(f, legacy)
  {
    ColumnExactly(f.window, legacy, MasterKey);
    ColumnExactly(f.ocr, legacy, MasterKey);
    ColumnExactly(f.urls, legacy, MasterKey);
    ColumnExactly(f.activity, legacy, MasterKey);
    hide Recrypt, Opens, See;
  }

  /** Main result, exact, by keys: the migration can be brought to its end if and only if every due column is empty
      or stored under the master key or the tenant's server key. */
  lemma FinishByKeysExactly(t: Tenant, client: Key)
    ensures (exists requests :: Finishes(t, client, requests)) <==> DueByKeys(t)
  {
    FinishExactly(t, client);
    hide Finishes, FrameOpens, Opens, Readable, See;
    forall i | 0 <= i < |t.frames| ensures Readable(t.frames[i], t.wrapped) <==> FrameOpens(t.frames[i], t.wrapped) {
      ReadableIs(t.frames[i], t.wrapped);
    }
    forall i | 0 <= i < |t.audio|
      ensures See(t.audio[i].transcript, t.wrapped) != Unreadable <==> Opens(t.audio[i].transcript, t.wrapped)
    {
      ColumnExactly(t.audio[i].transcript, t.wrapped, client);
    }
    ColumnExactly(t.apiKey, t.wrapped, client);
  }

  /** A row is as it was, or was under the server key, could be decrypted, and holds the same texts under the client
      key. */
  ghost predicate FrameKept(f: Frame, g: Frame, legacy: Option<Key>, client: Key) {
    || g == f
    || (&& f.source == Server && g.source == Client && FrameOpens(f, legacy)
        && g.window == Under(f.window, client) && g.ocr == Under(f.ocr, client)
        && g.urls == Under(f.urls, client) && g.activity == Under(f.activity, client)
        && (g.imageKey.Some? <==> f.imageKey.Some?))
  }

  ghost predicate AudioKept(a: Audio, b: Audio, legacy: Option<Key>, client: Key) {
    || b == a
    || (a.source == Server && Opens(a.transcript, legacy) && b == Audio(Under(a.transcript, client), Client))
  }

  ghost predicate AllKept(t: Tenant, u: Tenant, client: Key) {
    && |u.frames| == |t.frames| && |u.audio| == |t.audio|
    && (forall i :: 0 <= i < |t.frames| ==> FrameKept(t.frames[i], u.frames[i], t.wrapped, client))
    && (forall i :: 0 <= i < |t.audio| ==> AudioKept(t.audio[i], u.audio[i], t.wrapped, client))
    && ((u.apiKey == t.apiKey && u.apiSource == t.apiSource)
        || (ApiDue(t) && Opens(t.apiKey, t.wrapped) && u.apiKey == Under(t.apiKey, client) && u.apiSource == Client))
    && (u.wrapped == t.wrapped || NeedsNoServerKey(u))
  }

  lemma BatchKeepsAll(t: Tenant, client: Key, requested: int, uploads: map<nat, string>)
    ensures AllKept(t, MigrateBatch(t, client, requested, uploads).0, client)
  {
    BatchExactly(t, client, requested, uploads);
    var u := MigrateBatch(t, client, requested, uploads).0;
    var limit := if requested < 1 then 1 else if requested > 2000 then 2000 else requested;
    hide MigrateBatch, AllOpen, AllHeard, Opens, Under, NeedsNoServerKey, FrameOpens, TakenRows, Room;
    forall i | 0 <= i < |t.frames| ensures FrameKept(t.frames[i], u.frames[i], t.wrapped, client) {
      if Taken(t.frames, limit, t.wrapped, uploads, i) {
        assert FrameOpens(t.frames[i], t.wrapped);
      }
    }
    forall i | 0 <= i < |t.audio| ensures AudioKept(t.audio[i], u.audio[i], t.wrapped, client) {
      if AudioTaken(t.audio, Room(t, limit, uploads), t.wrapped, i) {
        assert Opens(t.audio[i].transcript, t.wrapped);
      }
    }
  }

  lemma KeptTrans(t: Tenant, u: Tenant, v: Tenant, client: Key)
    requires AllKept(t, u, client) && AllKept(u, v, client) && (NeedsNoServerKey(u) ==> NeedsNoServerKey(v))
    ensures AllKept(t, v, client)
  {
    hide Opens, Under, FrameOpens;
    if u.wrapped == t.wrapped {
      hide NeedsNoServerKey;
    }
  }

  /** Main result, by keys: whatever batches run, failing or not, every stored column is what it was, or holds the
      same text under the client key in place of the master key or the server key. */
  lemma {:induction false} RunKeepsColumns(t: Tenant, client: Key, requests: seq<Request>)
    ensures AllKept(t, RunBatches(t, client, requests), client)
    decreases |requests|
  {
    if requests == [] {
      hide NeedsNoServerKey, Opens, Under, FrameOpens;
    } else {
      hide MigrateBatch, AllKept, NeedsNoServerKey;
      var u := MigrateBatch(t, client, requests[0].limit, requests[0].uploads).0;
      BatchKeepsAll(t, client, requests[0].limit, requests[0].uploads);
      RunKeepsColumns(u, client, requests[1..]);
      if NeedsNoServerKey(u) {
        RunKeepsMigrated(u, client, requests[1..]);
      }
      KeptTrans(t, u, RunBatches(u, client, requests[1..]), client);
    }
  }
}
