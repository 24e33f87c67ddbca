/** The audio endpoints (app/api/v1/endpoints/audio.py): upload, listing, lookup and deletion
    of a user's audio files, keeping the upload directory and the audio table in step. */
module AudioEndpoints {
  import opened Wrappers
  import opened Http
  import Strings
  import Filenames
  import Crud
  import Users
  import Audio
  import Storage

  /** The content types an upload may declare. */
  const AllowedContentTypes: seq<string> := ["audio/mpeg", "audio/wav", "audio/ogg", "audio/aac", "audio/flac"]

  /** The size of one read from the upload, 1 MiB. */
  const ChunkSize: nat := 1024 * 1024

  /** The multipart file part: its client-side name, its declared type and its bytes. */
  datatype UploadFile = UploadFile(filename: Option<string>, contentType: Option<string>, content: seq<Storage.byte>)

  /** The text of `uuid.uuid4()`: 32 lower-case hex digits in groups of 8-4-4-4-12. */
  predicate IsUuidText(u: string) {
    |u| == 36 && forall i :: 0 <= i < |u| ==>
      if i == 8 || i == 13 || i == 18 || i == 23 then u[i] == '-'
      else '0' <= u[i] <= '9' || 'a' <= u[i] <= 'f'
  }

  /** The name shown for the upload: the form field when it is non-empty, else the file part's
      own name (`file_name or file.filename`). */
  function DisplayName(upload: UploadFile, fileName: Option<string>): Option<string> {
    if Strings.Truthy(fileName) then fileName else upload.filename
  }

  /** The name on disk: the fresh id, then the extension of the file part's own name (of
      `"audio"`, which has none, when that is missing). */
  function StoredName(upload: UploadFile, uuid: string): string {
    var source := if Strings.Truthy(upload.filename) then upload.filename.value else "audio";
    uuid + Filenames.SplitExt(source).1
  }

  /** The path of a stored file relative to the upload root: the owner's directory, then the
      stored name. */
  function RelativePath(userId: int, stored: string): string {
    Strings.IntToString(userId) + "/" + stored
  }

  /** The guards and the names of `upload_audio`, before anything is written. Any failure is
      400: a content type outside the list (or none), then a missing display name. */
  function UploadPlan(user: Users.User, upload: UploadFile, fileName: Option<string>, uuid: string)
    : (r: Result<Audio.AudioData>)
    ensures r.Fail? ==> r.status == BadRequest
    ensures upload.contentType.None? || upload.contentType.value !in AllowedContentTypes ==> r.Fail?
    ensures !Strings.Truthy(DisplayName(upload, fileName)) ==> r.Fail?
    ensures (upload.contentType.Some? && upload.contentType.value in AllowedContentTypes
             && Strings.Truthy(DisplayName(upload, fileName))) ==> r.Ok?
    ensures r.Ok? ==>
      && upload.contentType.Some? && upload.contentType.value in AllowedContentTypes
      && Strings.Truthy(DisplayName(upload, fileName))
      && r.value.originalFilename == Filenames.SanitizeFilename(DisplayName(upload, fileName).value)
      && r.value.storedFilename == StoredName(upload, uuid)
      && r.value.filePath == RelativePath(user.id, r.value.storedFilename)
      && r.value.contentType == upload.contentType
      && r.value.userId == user.id
  {
    if upload.contentType.None? || upload.contentType.value !in AllowedContentTypes then Fail(BadRequest)
    else
      var original := DisplayName(upload, fileName);
      if !Strings.Truthy(original) then Fail(BadRequest)
      else
        var stored := StoredName(upload, uuid);
        Ok(Audio.AudioData(
          Filenames.SanitizeFilename(original.value), stored, RelativePath(user.id, stored),
          upload.contentType, user.id))
  }

  /** The stored name keeps the extension of the file part's own name: splitting it again gives
      back the fresh id and that extension. */
  lemma StoredNameKeepsExtension(upload: UploadFile, uuid: string)
    requires IsUuidText(uuid)
    ensures var source := if Strings.Truthy(upload.filename) then upload.filename.value else "audio";
      Filenames.SplitExt(StoredName(upload, uuid)) == (uuid, Filenames.SplitExt(source).1)
  {
    var source := if Strings.Truthy(upload.filename) then upload.filename.value else "audio";
    var ext := Filenames.SplitExt(source).1;
    UuidIsSafe(uuid);
    assert StoredName(upload, uuid) == uuid + ext;
    if ext == [] {
      assert uuid + ext == uuid;
      Filenames.SplitExtOfSafe(uuid);
    } else {
      assert Filenames.ExtensionShape(Filenames.SplitExt(source).0, ext);
      Filenames.SplitExtOfNameAndExt(uuid, ext);
    }
  }

  /** The text of a uuid is made of characters the sanitiser keeps, so it holds no dot and no
      slash. */
  lemma UuidIsSafe(u: string)
    requires IsUuidText(u)
    ensures forall i :: 0 <= i < |u| ==> Filenames.IsSafe(u[i])
  {
    forall i | 0 <= i < |u| ensures Filenames.IsSafe(u[i]) {
      assert i == 8 || i == 13 || i == 18 || i == 23 || '0' <= u[i] <= '9' || 'a' <= u[i] <= 'f';
    }
  }

  /** Two different ids are never a prefix of each other's stored names, whatever the
      extension: a second fresh id stays fresh after the first upload. */
  lemma DistinctIdsStayFresh(u1: string, u2: string, ext: string)
    requires IsUuidText(u1) && IsUuidText(u2) && u1 != u2
    ensures !(u2 <= u1 + ext)
  {
    assert (u1 + ext)[..|u2|] == u1;
  }

  /** A relative path names its owner's directory and its stored name unambiguously. */
  lemma RelativePathInjective(u1: int, s1: string, u2: int, s2: string)
    requires RelativePath(u1, s1) == RelativePath(u2, s2)
    ensures u1 == u2 && s1 == s2
  {
    var a, c := Strings.IntToString(u1), Strings.IntToString(u2);
    assert RelativePath(u1, s1) == a + ['/'] + s1;
    assert RelativePath(u2, s2) == c + ['/'] + s2;
    Strings.JoinedPairSplits(a, s1, c, s2, '/');
    Strings.IntToStringInjective(u1, u2);
  }

  // ---- The upload directory and the table in step ----

  /** Stored names are unique (the column is `unique`). */
  ghost predicate StoredNamesUnique(rows: seq<Audio.AudioFile>) {
    forall x, y :: x in rows && y in rows && x.rec.storedFilename == y.rec.storedFilename ==> x == y
  }

  /** What the endpoints keep true of the table alone: valid keys, unique stored names, and
      every record's path is its owner's directory and its stored name. */
  ghost predicate WellFormed(audio: Crud.Table<Audio.AudioData>)
    reads audio
  {
    audio.Valid() && RecordsCoherent(audio.rows)
  }

  ghost predicate RecordsCoherent(rows: seq<Audio.AudioFile>) {
    && StoredNamesUnique(rows)
    && (forall x :: x in rows ==> x.rec.filePath == RelativePath(x.rec.userId, x.rec.storedFilename))
  }

  /** Every record's file is in the upload directory. */
  ghost predicate FilesPresent(rows: seq<Audio.AudioFile>, files: map<string, seq<Storage.byte>>) {
    forall x :: x in rows ==> x.rec.filePath in files
  }

  /** The table and the directory in step: the table is well formed and every record finds
      its file. */
  ghost predicate Consistent(audio: Crud.Table<Audio.AudioData>, disk: Storage.Disk)
    reads audio, disk
  {
    WellFormed(audio) && FilesPresent(audio.rows, disk.files)
  }

  /** Writing a file keeps every record's file in place. */
  lemma FilesAfterWrite(rows: seq<Audio.AudioFile>, files: map<string, seq<Storage.byte>>, path: string, content: seq<Storage.byte>)
    requires FilesPresent(rows, files)
    ensures FilesPresent(rows, files[path := content])
  {
  }

  /** Removing a file no record uses keeps every record's file in place. */
  lemma FilesAfterRemove(rows: seq<Audio.AudioFile>, files: map<string, seq<Storage.byte>>, path: string)
    requires FilesPresent(rows, files)
    requires forall x :: x in rows ==> x.rec.filePath != path
    ensures FilesPresent(rows, files - {path})
  {
  }

  /** A new record with a new stored name and its owner's path keeps the table well formed;
      when its file is present, every record still finds its file. */
  lemma CoherentAfterAppend(rows: seq<Audio.AudioFile>, files: map<string, seq<Storage.byte>>, row: Audio.AudioFile)
    requires RecordsCoherent(rows)
    requires forall x :: x in rows ==> x.rec.storedFilename != row.rec.storedFilename
    requires row.rec.filePath == RelativePath(row.rec.userId, row.rec.storedFilename)
    ensures RecordsCoherent(rows + [row])
    ensures FilesPresent(rows, files) && row.rec.filePath in files ==> FilesPresent(rows + [row], files)
  {
    forall x | x in rows + [row] ensures x in rows || x == row {
    }
  }

  /** The freshness of `uuid.uuid4()`: no stored name begins with the new id. */
  ghost predicate FreshUuid(audio: Crud.Table<Audio.AudioData>, uuid: string)
    reads audio
  {
    forall x :: x in audio.rows ==> !(uuid <= x.rec.storedFilename)
  }

  /** The number of reads of the 1 MiB loop that return data. */
  function ChunkCount(n: nat): (k: nat)
    ensures n == 0 <==> k == 0
    ensures n <= ChunkSize ==> k <= 1
    ensures n == 0 || (k - 1) * ChunkSize < n <= k * ChunkSize
  {
    if n == 0 then 0 else if n <= ChunkSize then 1 else 1 + ChunkCount(n - ChunkSize)
  }

  /** Whether saving fails. The fault of storage is given as the I/O step at which it strikes:
      0 is the open, `k >= 1` is the write of the `k`-th chunk; a step the loop never reaches
      strikes nothing. */
  predicate SaveFails(writeFault: Option<nat>, content: seq<Storage.byte>) {
    writeFault.Some? && writeFault.value <= ChunkCount(|content|)
  }

  /** `upload_audio` after authentication. A rejected upload writes nothing. Otherwise the
      owner's directory is made and the file written in chunks; when saving fails, the partial
      file is removed, the result is 500 and no record is made; when it succeeds, the file holds
      the upload's bytes and exactly one record describes it, unless inserting the record fails,
      which is 500 with the written file left on disk without a record. */
  method UploadAudio(audio: Crud.Table<Audio.AudioData>, disk: Storage.Disk, user: Users.User,
                     upload: UploadFile, fileName: Option<string>, uuid: string, writeFault: Option<nat>,
                     commitFails: bool)
    returns (r: Result<Audio.AudioFile>)
    requires WellFormed(audio) && FreshUuid(audio, uuid)
    modifies audio, disk
    ensures WellFormed(audio)
    ensures old(Consistent(audio, disk)) ==> Consistent(audio, disk)
    ensures var plan := UploadPlan(user, upload, fileName, uuid);
      plan.Fail? ==>
        && r == Fail(BadRequest)
        && audio.rows == old(audio.rows) && audio.nextId == old(audio.nextId)
        && disk.files == old(disk.files) && disk.dirs == old(disk.dirs)
    ensures var plan := UploadPlan(user, upload, fileName, uuid);
      plan.Ok? && SaveFails(writeFault, upload.content) ==>
        && r == Fail(InternalServerError)
        && audio.rows == old(audio.rows) && audio.nextId == old(audio.nextId)
        && disk.files == old(disk.files) - {plan.value.filePath}
        && disk.dirs == old(disk.dirs) + {Strings.IntToString(user.id)}
    ensures var plan := UploadPlan(user, upload, fileName, uuid);
      plan.Ok? && !SaveFails(writeFault, upload.content) && commitFails ==>
        && r == Fail(InternalServerError)
        && audio.rows == old(audio.rows) && audio.nextId == old(audio.nextId)
        && disk.files == old(disk.files)[plan.value.filePath := upload.content]
        && disk.dirs == old(disk.dirs) + {Strings.IntToString(user.id)}
    ensures var plan := UploadPlan(user, upload, fileName, uuid);
      plan.Ok? && !SaveFails(writeFault, upload.content) && !commitFails ==>
        && r == Ok(Crud.Row(old(audio.nextId), plan.value))
        && audio.rows == old(audio.rows) + [r.value] && audio.nextId == old(audio.nextId) + 1
        && disk.files == old(disk.files)[plan.value.filePath := upload.content]
        && disk.dirs == old(disk.dirs) + {Strings.IntToString(user.id)}
  {
    var plan := UploadPlan(user, upload, fileName, uuid);
    if plan.Fail? {
      return Fail(plan.status);
    }
    var rec := plan.value;
    var path := rec.filePath;
    ghost var rows, files := audio.rows, disk.files;
    ghost var present := FilesPresent(rows, files);
    assert uuid <= rec.storedFilename;
    NoRecordAtNewPath(audio, user, rec, uuid);
    disk.MakeDir(Strings.IntToString(user.id));
    var failed := SaveFile(disk, path, upload.content, writeFault);
    if failed {
      if present {
        FilesAfterRemove(rows, files, path);
      }
      return Fail(InternalServerError);
    }
    if present {
      FilesAfterWrite(rows, files, path, upload.content);
    }
    if commitFails {
      return Fail(InternalServerError);
    }
    var created := Audio.CreateWithOwner(audio, rec.originalFilename, rec.storedFilename, rec.filePath, rec.contentType, rec.userId);
    CoherentAfterAppend(rows, disk.files, created);
    r := Ok(created);
  }

  /** The `try` block of `upload_audio` with its cleanup: open the file and write the upload
      chunk by chunk. On a fault the path is removed if it exists, so nothing is left at it;
      otherwise it holds the upload's bytes. Nothing else on disk changes. */
  method SaveFile(disk: Storage.Disk, path: string, content: seq<Storage.byte>, writeFault: Option<nat>)
    returns (failed: bool)
    modifies disk
    ensures failed <==> SaveFails(writeFault, content)
    ensures failed ==> disk.files == old(disk.files) - {path}
    ensures !failed ==> disk.files == old(disk.files)[path := content]
    ensures disk.dirs == old(disk.dirs)
  {
    failed := false;
    if writeFault == Some(0) {
      failed := true;
    } else {
      disk.OpenForWrite(path);
      var pos := 0;
      var k := 0;
      while pos < |content|
        invariant 0 <= pos <= |content|
        invariant k + ChunkCount(|content| - pos) == ChunkCount(|content|)
        invariant writeFault.Some? ==> writeFault.value > k
        invariant !failed
        invariant disk.files == old(disk.files)[path := content[..pos]]
        invariant disk.dirs == old(disk.dirs)
        decreases |content| - pos
      {
        if writeFault == Some(k + 1) {
          failed := true;
          break;
        }
        var next := if pos + ChunkSize <= |content| then pos + ChunkSize else |content|;
        assert content[..pos] + content[pos..next] == content[..next];
        disk.Append(path, content[pos..next]);
        pos := next;
        k := k + 1;
      }
      assert !failed ==> content[..pos] == content;
    }
    if failed {
      if disk.IsFile(path) {
        disk.Unlink(path);
      }
    }
  }

  /** No record already uses the stored name or the path of an upload with a fresh id. */
  lemma NoRecordAtNewPath(audio: Crud.Table<Audio.AudioData>, user: Users.User, rec: Audio.AudioData, uuid: string)
    requires FreshUuid(audio, uuid) && RecordsCoherent(audio.rows)
    requires uuid <= rec.storedFilename
    requires rec.filePath == RelativePath(user.id, rec.storedFilename)
    ensures forall x :: x in audio.rows ==> x.rec.storedFilename != rec.storedFilename && x.rec.filePath != rec.filePath
  {
    forall x | x in audio.rows
      ensures x.rec.storedFilename != rec.storedFilename && x.rec.filePath != rec.filePath
    {
      if x.rec.filePath == rec.filePath {
        RelativePathInjective(x.rec.userId, x.rec.storedFilename, user.id, rec.storedFilename);
      }
    }
  }

  /** `list_user_audio_files`: the caller's page of their own records. */
  function ListUserAudioFiles(audio: Crud.Table<Audio.AudioData>, user: Users.User, skip: nat, limit: nat)
    : (r: seq<Audio.AudioFile>)
    reads audio
    ensures |r| <= limit
    ensures forall k :: 0 <= k < |r| ==> r[k] in audio.rows && r[k].rec.userId == user.id
    ensures var owned := Audio.OwnedBy(audio.rows, user.id);
      forall k :: 0 <= k < |r| ==> skip + k < |owned| && r[k] == owned[skip + k]
    ensures var owned := Audio.OwnedBy(audio.rows, user.id);
      && (skip >= |owned| ==> r == [])
      && (skip < |owned| ==> |r| == if skip + limit <= |owned| then limit else |owned| - skip)
  {
    Audio.GetMultiByOwner(audio, user.id, skip, limit)
  }

  /** `get_audio_file_info`: 404 for a missing record, then 403 for anyone but the owner,
      superusers included. */
  function GetAudioFileInfo(audio: Crud.Table<Audio.AudioData>, user: Users.User, audioId: int)
    : (r: Result<Audio.AudioFile>)
    reads audio
    ensures audio.Get(audioId).None? <==> r == Fail(NotFound)
    ensures r.Ok? <==> audio.Get(audioId).Some? && audio.Get(audioId).value.rec.userId == user.id
    ensures r.Ok? ==> r.value in audio.rows && r.value.id == audioId
    ensures r.Ok? ==> r.value == audio.Get(audioId).value
    ensures r.Fail? ==> r.status == NotFound || r.status == Forbidden
  {
    match audio.Get(audioId)
    case None => Fail(NotFound)
    case Some(a) => if a.rec.userId != user.id then Fail(Forbidden) else Ok(a)
  }

  /** The lookup does not depend on the caller's flags: a superuser sees no one else's file. */
  lemma GetInfoIgnoresSuperuser(audio: Crud.Table<Audio.AudioData>, user: Users.User, audioId: int, isSuperuser: bool)
    ensures GetAudioFileInfo(audio, user, audioId) == GetAudioFileInfo(audio, user.(rec := user.rec.(isSuperuser := isSuperuser)), audioId)
  {
  }

  /** `delete_audio_file` after authentication. 404 for a missing record and 403 for a caller
      who neither owns it nor is a superuser, both with nothing changed. Then the file step:
      a missing file is skipped, and an unlink that fails gives 500 with the record kept.
      Otherwise the file goes, then the record. */
  method DeleteAudioFile(audio: Crud.Table<Audio.AudioData>, disk: Storage.Disk, user: Users.User,
                         audioId: int, unlinkFails: bool)
    returns (r: Result<()>)
    requires WellFormed(audio)
    modifies audio, disk
    ensures WellFormed(audio)
    ensures old(Consistent(audio, disk)) ==> Consistent(audio, disk)
    ensures disk.dirs == old(disk.dirs) && audio.nextId == old(audio.nextId)
    ensures var a := old(audio.Get(audioId));
      && (a.None? ==> r == Fail(NotFound))
      && (a.Some? && a.value.rec.userId != user.id && !user.rec.isSuperuser ==> r == Fail(Forbidden))
      && (a.Some? && (a.value.rec.userId == user.id || user.rec.isSuperuser)
          && a.value.rec.filePath in old(disk.files) && unlinkFails
          ==> r == Fail(InternalServerError))
    ensures r.Fail? ==> audio.rows == old(audio.rows) && disk.files == old(disk.files)
    ensures r.Ok? <==> var a := old(audio.Get(audioId));
      && a.Some? && (a.value.rec.userId == user.id || user.rec.isSuperuser)
      && (!unlinkFails || a.value.rec.filePath !in old(disk.files))
    ensures r.Ok? ==>
      && audio.rows == Crud.Without(old(audio.rows), audioId)
      && |audio.rows| == |old(audio.rows)| - 1
      && disk.files == old(disk.files) - {old(audio.Get(audioId)).value.rec.filePath}
    ensures r.Ok? && old(audio.Get(audioId)).value.rec.filePath !in old(disk.files) ==>
      disk.files == old(disk.files)
  {
    var found := audio.Get(audioId);
    if found.None? {
      return Fail(NotFound);
    }
    var a := found.value;
    if a.rec.userId != user.id && !Users.IsSuperuser(user) {
      return Fail(Forbidden);
    }
    r := RemoveFileThenRecord(audio, disk, a, unlinkFails);
  }

  /** The file step, then the record step, of `delete_audio_file`: a missing file is skipped;
      an unlink that fails gives 500 with the record kept; otherwise the file goes, then the
      record. */
  method RemoveFileThenRecord(audio: Crud.Table<Audio.AudioData>, disk: Storage.Disk, a: Audio.AudioFile,
                              unlinkFails: bool)
    returns (r: Result<()>)
    requires WellFormed(audio) && a in audio.rows
    modifies audio, disk
    ensures WellFormed(audio)
    ensures old(Consistent(audio, disk)) ==> Consistent(audio, disk)
    ensures disk.dirs == old(disk.dirs) && audio.nextId == old(audio.nextId)
    ensures r.Fail? <==> a.rec.filePath in old(disk.files) && unlinkFails
    ensures r.Fail? ==> r == Fail(InternalServerError) && audio.rows == old(audio.rows) && disk.files == old(disk.files)
    ensures r.Ok? ==>
      && audio.rows == Crud.Without(old(audio.rows), a.id)
      && |audio.rows| == |old(audio.rows)| - 1
      && disk.files == old(disk.files) - {a.rec.filePath}
  {
    ghost var rows, files := audio.rows, disk.files;
    if disk.IsFile(a.rec.filePath) {
      if unlinkFails {
        return Fail(InternalServerError);
      }
      disk.Unlink(a.rec.filePath);
    }
    assert |Crud.Without(rows, a.id)| == |rows| - 1 by {
      var i :| 0 <= i < |rows| && rows[i] == a;
      Crud.WithoutAt(rows, i);
    }
    var removed := audio.Remove(a.id);
    OthersKeepTheirFiles(rows, a, files);
    r := Ok(());
  }

  /** The records left after a deletion keep the table well formed, and, when every record
      found its file before, still find theirs: none of them shared the deleted record's path. */
  lemma OthersKeepTheirFiles(rows: seq<Audio.AudioFile>, a: Audio.AudioFile, files: map<string, seq<Storage.byte>>)
    requires a in rows && Crud.KeysUnique(rows) && RecordsCoherent(rows)
    ensures RecordsCoherent(Crud.Without(rows, a.id))
    ensures FilesPresent(rows, files) ==> FilesPresent(Crud.Without(rows, a.id), files - {a.rec.filePath})
  {
    var rest := Crud.Without(rows, a.id);
    forall x | x in rest ensures x in rows && x.id != a.id {
      var i :| 0 <= i < |rest| && rest[i] == x;
    }
    forall x | x in rest ensures x.rec.filePath != a.rec.filePath {
      if x.rec.filePath == a.rec.filePath {
        RelativePathInjective(x.rec.userId, x.rec.storedFilename, a.rec.userId, a.rec.storedFilename);
      }
    }
  }
}
