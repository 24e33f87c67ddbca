/** What the model gives, stated as verified methods and lemmas, on concrete inputs: names,
    upload plans, and upload, list and delete sequences. */
module Scenarios {
  import opened Wrappers
  import opened Http
  import Strings
  import Filenames
  import Crud
  import Users
  import Audio
  import Storage
  import AudioEndpoints

  /** Spaces and punctuation in the base become underscores; the extension stays. */
  lemma SanitizeExample()
    ensures Filenames.SanitizeFilename("my song!!.mp3") == "my_song__.mp3"
  {
    var p := "my song!!.mp3";
    assert p == "my song!!" + ".mp3";
    Filenames.SplitExtOfNameAndExt("my song!!", ".mp3");
    var r := Filenames.SanitizeFilename(p);
    var want := "my_song__.mp3";
    forall i | 0 <= i < |want| ensures r[i] == want[i] {
      if i >= 9 {
        assert r[i] == r[9..][i - 9];
      }
    }
  }

  /** The plan of an upload whose own name is an already safe base and an extension, with an
      allowed content type and no form name: those names, the fresh id and the owner's path. */
  lemma PlanOfSafeName(owner: Users.User, upload: AudioEndpoints.UploadFile, uuid: string, base: string, ext: string)
    requires 0 < |base| <= Filenames.MaxBaseLength && forall i :: 0 <= i < |base| ==> Filenames.IsSafe(base[i])
    requires ext != [] && ext[0] == '.'
    requires forall i :: 1 <= i < |ext| ==> ext[i] != '.' && ext[i] != '/'
    requires upload.filename == Some(base + ext)
    requires upload.contentType.Some? && upload.contentType.value in AudioEndpoints.AllowedContentTypes
    ensures AudioEndpoints.UploadPlan(owner, upload, None, uuid)
         == Ok(Audio.AudioData(base + ext, uuid + ext, Strings.IntToString(owner.id) + "/" + uuid + ext, upload.contentType, owner.id))
  {
    Filenames.SanitizeKeepsSafeName(base, ext);
    var name := base + ext;
    assert AudioEndpoints.DisplayName(upload, None) == Some(name);
    assert name != "";
    assert AudioEndpoints.StoredName(upload, uuid) == uuid + ext;
    assert AudioEndpoints.RelativePath(owner.id, uuid + ext) == Strings.IntToString(owner.id) + "/" + uuid + ext;
  }

  /** The plan for `demo.flac` declared as `audio/flac`, uploaded by user 1. */
  lemma DemoPlan(owner: Users.User, upload: AudioEndpoints.UploadFile, uuid: string)
    requires owner.id == 1
    requires upload.filename == Some("demo.flac") && upload.contentType == Some("audio/flac")
    ensures AudioEndpoints.UploadPlan(owner, upload, None, uuid)
         == Ok(Audio.AudioData("demo.flac", uuid + ".flac", "1/" + uuid + ".flac", Some("audio/flac"), 1))
  {
    DemoParts();
    PlanOfSafeName(owner, upload, uuid, "demo", ".flac");
    OwnerOnePath(uuid, ".flac");
  }

  /** The pieces of the `demo.flac` example: a safe base, its extension and an allowed type. */
  lemma DemoParts()
    ensures "demo.flac" == "demo" + ".flac"
    ensures forall i :: 0 <= i < |"demo"| ==> Filenames.IsSafe("demo"[i])
    ensures "audio/flac" in AudioEndpoints.AllowedContentTypes
  {
  }

  /** User 1's directory is `1`. */
  lemma OwnerOnePath(uuid: string, ext: string)
    ensures Strings.IntToString(1) + "/" + uuid + ext == "1/" + uuid + ext
  {
    assert Strings.IntToString(1) == "1";
  }

  /** An owner uploads `demo.flac`, sees it listed, deletes it, and then sees an empty list,
      with the file gone from the upload directory. */
  method UploadListDelete(uuid: string)
    returns (created: Audio.AudioFile, before: seq<Audio.AudioFile>, after: seq<Audio.AudioFile>, fileGone: bool)
    ensures created.rec.originalFilename == "demo.flac"
    ensures created.rec.filePath == "1/" + uuid + ".flac"
    ensures before == [created] && after == [] && fileGone
  {
    var audio := new Crud.Table<Audio.AudioData>();
    var disk := new Storage.Disk();
    var owner := Crud.Row(1, Users.UserData("42", None, None, None, true, false));
    var upload := AudioEndpoints.UploadFile(Some("demo.flac"), Some("audio/flac"), [1, 2, 3]);
    DemoPlan(owner, upload, uuid);
    ghost var plan := Audio.AudioData("demo.flac", uuid + ".flac", "1/" + uuid + ".flac", Some("audio/flac"), 1);
    assert AudioEndpoints.UploadPlan(owner, upload, None, uuid) == Ok(plan);
    assert !AudioEndpoints.SaveFails(None, upload.content);

    var r := AudioEndpoints.UploadAudio(audio, disk, owner, upload, None, uuid, None, false);
    assert r == Ok(Crud.Row(1, plan));
    created := r.value;
    assert audio.rows == [created];
    assert Audio.OwnedBy(audio.rows, 1) == [created];
    before := AudioEndpoints.ListUserAudioFiles(audio, owner, 0, 100);

    assert audio.Get(created.id) == Some(created);
    var d := AudioEndpoints.DeleteAudioFile(audio, disk, owner, created.id, false);
    assert audio.rows == Crud.Without([created], created.id) == [];
    after := AudioEndpoints.ListUserAudioFiles(audio, owner, 0, 100);
    fileGone := !disk.IsFile(created.rec.filePath);
  }

  /** The plan for `track.mp3` declared as `audio/mpeg`, uploaded by user 1. */
  lemma TrackPlan(owner: Users.User, upload: AudioEndpoints.UploadFile, uuid: string)
    requires owner.id == 1
    requires upload.filename == Some("track.mp3") && upload.contentType == Some("audio/mpeg")
    ensures AudioEndpoints.UploadPlan(owner, upload, None, uuid)
         == Ok(Audio.AudioData("track.mp3", uuid + ".mp3", "1/" + uuid + ".mp3", Some("audio/mpeg"), 1))
  {
    TrackParts();
    PlanOfSafeName(owner, upload, uuid, "track", ".mp3");
    OwnerOnePath(uuid, ".mp3");
  }

  /** The pieces of the `track.mp3` example. */
  lemma TrackParts()
    ensures "track.mp3" == "track" + ".mp3"
    ensures forall i :: 0 <= i < |"track"| ==> Filenames.IsSafe("track"[i])
    ensures "audio/mpeg" in AudioEndpoints.AllowedContentTypes
  {
  }

  /** An owner's list, when the table holds exactly two records of that owner. */
  lemma ListOfTwo(audio: Crud.Table<Audio.AudioData>, owner: Users.User, first: Audio.AudioFile, second: Audio.AudioFile)
    requires audio.rows == [first, second]
    requires first.rec.userId == owner.id && second.rec.userId == owner.id
    ensures AudioEndpoints.ListUserAudioFiles(audio, owner, 0, 100) == [first, second]
  {
    Audio.OwnedByAppend([], first, owner.id);
    assert [] + [first] == [first];
    Audio.OwnedByAppend([first], second, owner.id);
    assert [first] + [second] == [first, second];
  }

  /** Two uploads of `track.mp3` by one owner, with two fresh ids, give two records with
      different stored names, both in the owner's list. */
  method TwoUploadsOfOneName(u1: string, u2: string)
    returns (first: Audio.AudioFile, second: Audio.AudioFile, listed: seq<Audio.AudioFile>)
    requires AudioEndpoints.IsUuidText(u1) && AudioEndpoints.IsUuidText(u2) && u1 != u2
    ensures first.id != second.id && first.rec.storedFilename != second.rec.storedFilename
    ensures first.rec.originalFilename == second.rec.originalFilename
    ensures listed == [first, second]
  {
    var audio := new Crud.Table<Audio.AudioData>();
    var disk := new Storage.Disk();
    var owner := Crud.Row(1, Users.UserData("42", None, None, None, true, false));
    var upload := AudioEndpoints.UploadFile(Some("track.mp3"), Some("audio/mpeg"), [7]);
    TrackPlan(owner, upload, u1);
    TrackPlan(owner, upload, u2);
    assert !AudioEndpoints.SaveFails(None, upload.content);

    var r1 := AudioEndpoints.UploadAudio(audio, disk, owner, upload, None, u1, None, false);
    assert r1.Ok?;
    first := r1.value;
    assert first.rec.storedFilename == u1 + ".mp3";
    AudioEndpoints.DistinctIdsStayFresh(u1, u2, ".mp3");
    var r2 := AudioEndpoints.UploadAudio(audio, disk, owner, upload, None, u2, None, false);
    assert r2.Ok?;
    second := r2.value;
    assert audio.rows == [first, second];
    ListOfTwo(audio, owner, first, second);
    listed := AudioEndpoints.ListUserAudioFiles(audio, owner, 0, 100);
  }
}
