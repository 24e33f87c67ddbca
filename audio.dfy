/** The audio-file table (app/crud/crud_audio.py, `CRUDAudioFile`). */
module Audio {
  import opened Wrappers
  import Crud

  /** The columns of an audio record besides its key (app/models/audio.py). */
  datatype AudioData = AudioData(
    originalFilename: string,
    storedFilename: string,
    filePath: string,
    contentType: Option<string>,
    userId: int)

  type AudioFile = Crud.Row<AudioData>

  /** The records of one owner, in store order. */
  function OwnedBy(rows: seq<AudioFile>, userId: int): (r: seq<AudioFile>)
    ensures forall i :: 0 <= i < |r| ==> r[i] in rows && r[i].rec.userId == userId
    ensures forall i :: 0 <= i < |rows| && rows[i].rec.userId == userId ==> rows[i] in r
  {
    Crud.Filter(rows, (a: AudioFile) => a.rec.userId == userId)
  }

  /** A new record of one owner comes last among that owner's records; other owners' lists
      do not change. */
  lemma OwnedByAppend(rows: seq<AudioFile>, a: AudioFile, userId: int)
    ensures OwnedBy(rows + [a], userId) == OwnedBy(rows, userId) + (if a.rec.userId == userId then [a] else [])
  {
    Crud.FilterAppend(rows, a, (x: AudioFile) => x.rec.userId == userId);
  }

  /** `create_with_owner`: one new record whose columns are the arguments. */
  method CreateWithOwner(audio: Crud.Table<AudioData>, originalFilename: string, storedFilename: string,
                         filePath: string, contentType: Option<string>, userId: int)
    returns (created: AudioFile)
    requires audio.Valid()
    modifies audio
    ensures audio.Valid()
    ensures created == Crud.Row(old(audio.nextId), AudioData(originalFilename, storedFilename, filePath, contentType, userId))
    ensures audio.rows == old(audio.rows) + [created] && audio.nextId == old(audio.nextId) + 1
    ensures OwnedBy(audio.rows, userId) == OwnedBy(old(audio.rows), userId) + [created]
  {
    created := audio.Create(AudioData(originalFilename, storedFilename, filePath, contentType, userId));
    OwnedByAppend(old(audio.rows), created, userId);
  }

  /** `get_multi_by_owner`: at most `limit` of the owner's records from position `skip` among
      them, in store order. */
  function GetMultiByOwner(audio: Crud.Table<AudioData>, userId: int, skip: nat, limit: nat): (r: seq<AudioFile>)
    reads audio
    ensures |r| <= limit
    ensures forall k :: 0 <= k < |r| ==> r[k] in audio.rows && r[k].rec.userId == userId
    ensures var owned := OwnedBy(audio.rows, userId);
      forall k :: 0 <= k < |r| ==> skip + k < |owned| && r[k] == owned[skip + k]
    ensures var owned := OwnedBy(audio.rows, userId);
      skip < |owned| ==> |r| == if skip + limit <= |owned| then limit else |owned| - skip
  {
    Crud.Page(OwnedBy(audio.rows, userId), skip, limit)
  }

  /** Right after `create_with_owner` for an owner, the owner's unpaginated list holds the new
      record, as its last element. */
  lemma CreatedIsListed(audio: Crud.Table<AudioData>, rows0: seq<AudioFile>, created: AudioFile, limit: nat)
    requires audio.rows == rows0 + [created]
    requires limit >= |OwnedBy(audio.rows, created.rec.userId)|
    ensures var listed := GetMultiByOwner(audio, created.rec.userId, 0, limit);
      listed != [] && listed[|listed| - 1] == created
  {
    OwnedByAppend(rows0, created, created.rec.userId);
  }
}
