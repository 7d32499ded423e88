/**
 * The image service of src/app/images/services.py: the read guards, upload validation
 * and the two operations that create records.
 */
module Services {
  import opened Wrappers
  import opened Models
  import opened Exceptions
  import opened Repositories
  import Tasks

  const MiB: int := 1024 * 1024

  /** str.partition with a one-character separator: (head, separator, tail) around its first occurrence. */
  function Partition(s: string, sep: char): (r: (string, string, string))
    ensures r.0 + r.1 + r.2 == s
    ensures sep !in r.0
    ensures r.1 == [sep] || (r.1 == [] && r.2 == [] && sep !in s)
  {
    if s == [] then ("", "", "")
    else if s[0] == sep then ("", [sep], s[1..])
    else
      var (head, mid, tail) := Partition(s[1..], sep);
      assert s == [s[0]] + s[1..];
      ([s[0]] + head, mid, tail)
  }

  /** content_type.partition("/")[0] */
  function PrimaryType(contentType: string): string
  {
    Partition(contentType, '/').0
  }

  /** A content type that names the image type: "image" alone or "image/" followed by anything. */
  predicate IsImageContentType(contentType: string)
  {
    contentType == "image" || (|contentType| >= 6 && contentType[..6] == "image/")
  }

  /** Partition finds the separator right after a separator-free prefix. */
  lemma {:induction false} PartitionAfterPrefix(p: string, sep: char, rest: string)
    requires sep !in p
    ensures rest == [] ==> Partition(p + rest, sep) == (p, "", "")
    ensures |rest| > 0 && rest[0] == sep ==> Partition(p + rest, sep) == (p, [sep], rest[1..])
  {
    if p == [] {
      assert p + rest == rest;
    } else {
      PartitionAfterPrefix(p[1..], sep, rest);
      assert (p + rest)[0] == p[0] && (p + rest)[1..] == p[1..] + rest;
      assert [p[0]] + p[1..] == p;
    }
  }

  /** A primary type "image" comes from "image" alone or from a type starting "image/". */
  lemma PrimaryImageHasImagePrefix(contentType: string)
    requires PrimaryType(contentType) == "image"
    ensures IsImageContentType(contentType)
  {
    var (head, mid, tail) := Partition(contentType, '/');
    assert head + mid + tail == contentType;
    if mid == [] {
      assert contentType == head;
    } else {
      assert mid == "/";
      assert contentType[..6] == head + mid;
    }
  }

  /** "image" alone and any type starting "image/" have the primary type "image". */
  lemma ImagePrefixHasPrimaryImage(contentType: string)
    requires IsImageContentType(contentType)
    ensures PrimaryType(contentType) == "image"
  {
    assert '/' !in "image";
    if contentType == "image" {
      PartitionAfterPrefix("image", '/', "");
      assert contentType == "image" + "";
    } else {
      var rest := contentType[5..];
      assert contentType == contentType[..5] + rest;
      assert contentType[..5] == "image" && rest[0] == '/';
      PartitionAfterPrefix("image", '/', rest);
    }
  }

  lemma PrimaryTypeIsImage(contentType: string)
    ensures PrimaryType(contentType) == "image" <==> IsImageContentType(contentType)
  {
    if PrimaryType(contentType) == "image" {
      PrimaryImageHasImagePrefix(contentType);
    }
    if IsImageContentType(contentType) {
      ImagePrefixHasPrimaryImage(contentType);
    }
  }

  /** file.size / (1024 * 1024) > settings.MAX_FILE_SIZE_MB, the division taken exactly. */
  predicate ExceedsLimit(size: int, maxFileSizeMb: int)
  {
    (size as real) / (MiB as real) > maxFileSizeMb as real
  }

  /** The limit is inclusive: a size of exactly MAX_FILE_SIZE_MB MiB passes, one byte more does not. */
  lemma ExceedsLimitExactly(size: int, maxFileSizeMb: int)
    ensures ExceedsLimit(size, maxFileSizeMb) <==> size > maxFileSizeMb * MiB
  {
    assert (size as real) / (MiB as real) * (MiB as real) == size as real;
  }

  /** The checks create_image makes before it writes anything; None when the upload is accepted. */
  function ValidateUpload(file: UploadFile?, maxFileSizeMb: int): (r: Option<ImageError>)
    ensures r.None? <==>
              file != null && file.size.Some? && file.size.value != 0
              && file.contentType.Some? && IsImageContentType(file.contentType.value)
              && file.size.value <= maxFileSizeMb * MiB
    ensures r == Some(InvalidFile) <==>
              file == null || file.size.None? || file.size.value == 0
              || file.contentType.None? || !IsImageContentType(file.contentType.value)
    ensures r.Some? ==> r == Some(InvalidFile) || r == Some(ImageTooBig)
  {
    if file == null
       || file.size.None? || file.size.value == 0
       || file.contentType.None? || file.contentType.value == ""
    then Some(InvalidFile)
    else
      PrimaryTypeIsImage(file.contentType.value);
      ExceedsLimitExactly(file.size.value, maxFileSizeMb);
      if PrimaryType(file.contentType.value) != "image" then Some(InvalidFile)
      else if ExceedsLimit(file.size.value, maxFileSizeMb) then Some(ImageTooBig)
      else None
  }

  /**
   * The outcomes the unit tests pin down, plus two the code admits: a content type of
   * just "image", and a negative size, both pass.
   */
  /** The uploads the unit tests reject: no file, no or zero size, no or empty or non-image type, one byte too many. */
  lemma UploadRejections(file: UploadFile, maxFileSizeMb: int)
    ensures ValidateUpload(null, maxFileSizeMb) == Some(InvalidFile)
    ensures file.size == Some(0) || file.size.None? ==> ValidateUpload(file, maxFileSizeMb) == Some(InvalidFile)
    ensures file.contentType == Some("") || file.contentType.None? ==>
              ValidateUpload(file, maxFileSizeMb) == Some(InvalidFile)
    ensures file.contentType == Some("video/mp4") ==> ValidateUpload(file, maxFileSizeMb) == Some(InvalidFile)
    ensures file.contentType == Some("image/png") && maxFileSizeMb >= 0 && file.size == Some(maxFileSizeMb * MiB + 1) ==>
              ValidateUpload(file, maxFileSizeMb) == Some(ImageTooBig)
  {
    assert "video/mp4"[..6] != "image/" by {
      assert "video/mp4"[0] == 'v';
    }
    assert IsImageContentType("image/png");
  }

  /** Uploads the code accepts: exactly at the limit, the bare type "image", and a negative size. */
  lemma UploadAcceptances(file: UploadFile, maxFileSizeMb: int)
    ensures file.contentType == Some("image/png") && maxFileSizeMb > 0 && file.size == Some(maxFileSizeMb * MiB) ==>
              ValidateUpload(file, maxFileSizeMb) == None
    ensures file.contentType == Some("image") && maxFileSizeMb > 0 && file.size == Some(1) ==>
              ValidateUpload(file, maxFileSizeMb) == None
    ensures file.contentType == Some("image/png") && maxFileSizeMb >= 0 && file.size == Some(-1) ==>
              ValidateUpload(file, maxFileSizeMb) == None
  {
    assert IsImageContentType("image/png");
  }

  lemma UploadCheckCases(file: UploadFile, maxFileSizeMb: int)
    ensures ValidateUpload(null, maxFileSizeMb) == Some(InvalidFile)
    ensures file.size == Some(0) || file.size.None? ==> ValidateUpload(file, maxFileSizeMb) == Some(InvalidFile)
    ensures file.contentType == Some("") || file.contentType.None? ==>
              ValidateUpload(file, maxFileSizeMb) == Some(InvalidFile)
    ensures file.contentType == Some("video/mp4") ==> ValidateUpload(file, maxFileSizeMb) == Some(InvalidFile)
    ensures file.contentType == Some("image/png") && maxFileSizeMb >= 0 && file.size == Some(maxFileSizeMb * MiB + 1) ==>
              ValidateUpload(file, maxFileSizeMb) == Some(ImageTooBig)
    ensures file.contentType == Some("image/png") && maxFileSizeMb > 0 && file.size == Some(maxFileSizeMb * MiB) ==>
              ValidateUpload(file, maxFileSizeMb) == None
    ensures file.contentType == Some("image") && maxFileSizeMb > 0 && file.size == Some(1) ==>
              ValidateUpload(file, maxFileSizeMb) == None
    ensures file.contentType == Some("image/png") && maxFileSizeMb >= 0 && file.size == Some(-1) ==>
              ValidateUpload(file, maxFileSizeMb) == None
  {
    UploadRejections(file, maxFileSizeMb);
    UploadAcceptances(file, maxFileSizeMb);
  }

  /** get_image_meta: the record, checked to exist first and to belong to the caller second. */
  function GetImageMeta(repo: ImageRepository, imageId: Uuid, ownerId: Uuid): (r: Result<Image, ImageError>)
    reads repo
    requires repo.Valid()
    ensures imageId !in repo.rows ==> r == Failure(ImageNotFound(imageId))
    ensures imageId in repo.rows && repo.rows[imageId].ownerId != ownerId ==> r == Failure(UserIsNotOwner)
    ensures r.Success? <==> imageId in repo.rows && repo.rows[imageId].ownerId == ownerId
    ensures r.Success? ==> r.value.id == imageId && r.value.ownerId == ownerId
                           && ModelToTable(r.value) == repo.rows[imageId]
    ensures r.Success? ==> r.value == TableToModel(repo.rows[imageId]) && r.value.contentType == "image/png"
  {
    match repo.GetMeta(imageId)
    case None => Failure(ImageNotFound(imageId))
    case Some(image) =>
      if image.ownerId != ownerId then Failure(UserIsNotOwner)
      else Success(image)
  }

  /** get_image_file: refuses a record that is still processing, otherwise reads its blob. */
  function GetImageFile(fileRepo: ImageFileRepository, image: Image): (r: Result<Bytes, ImageError>)
    reads fileRepo
    ensures image.status == Processing ==> r == Failure(ImageIsStillProcessing)
    ensures image.status == Done ==>
              (r.Success? <==> GetPath(fileRepo.imageDir, image.id) in fileRepo.files)
              && (r.Success? ==> r.value == fileRepo.files[GetPath(fileRepo.imageDir, image.id)])
              && (r.Failure? ==> r.error == FileNotFound(image.id))
  {
    if image.status == Processing then Failure(ImageIsStillProcessing)
    else
      match fileRepo.Get(image)
      case None => Failure(FileNotFound(image.id))
      case Some(imageBytes) => Success(imageBytes)
  }

  /** A record that is still processing is refused whatever the blob store holds: the store is not consulted. */
  lemma StillProcessingIgnoresStore(a: ImageFileRepository, b: ImageFileRepository, image: Image)
    requires image.status == Processing
    ensures GetImageFile(a, image) == GetImageFile(b, image) == Failure(ImageIsStillProcessing)
  {
  }

  /** In consistent stores every DONE record can be read back. */
  lemma DoneRecordIsReadable(repo: ImageRepository, id: Uuid)
    requires repo.Valid() && repo.Consistent()
    requires id in repo.rows && repo.rows[id].status == Done
    ensures GetImageFile(repo.fileRepository, TableToModel(repo.rows[id])).Success?
  {
    assert TableToModel(repo.rows[id]).id == id;
  }

  /**
   * create_image: validates the upload, then writes the DONE record and only after it
   * the blob. `newId` stands for the uuid4 the Image constructor draws, `now` for the
   * creation time; `between` is the state of the stores between the two writes.
   */
  method CreateImage(repo: ImageRepository, file: UploadFile?, title: string, ownerId: Uuid,
                     maxFileSizeMb: int, newId: Uuid, now: Timestamp)
    returns (r: Result<Uuid, ImageError>, ghost between: StoreState)
    requires repo.Valid()
    requires file != null ==> file.Valid()
    requires newId !in repo.rows
    modifies repo`rows, repo.fileRepository`files, file
    ensures repo.Valid()
    ensures ValidateUpload(file, maxFileSizeMb).Some? ==>
              r == Failure(ValidateUpload(file, maxFileSizeMb).value)
              && repo.State() == old(repo.State()) && (file != null ==> file.pos == old(file.pos))
    ensures ValidateUpload(file, maxFileSizeMb).None? ==> r == Success(newId)
    ensures r.Success? ==>
              file != null
              && repo.rows == old(repo.rows)[newId := ImageRow(newId, ownerId, title, Done, now)]
              && repo.fileRepository.files ==
                   old(repo.fileRepository.files)[GetPath(repo.fileRepository.imageDir, newId) :=
                     SavedContent(repo.fileRepository.chunkSize, old(file.Remaining()))]
              && between == StoreState(repo.rows, old(repo.fileRepository.files))
    ensures old(repo.Consistent()) ==> repo.Consistent()
  {
    between := repo.State();
    if file == null
       || file.size.None? || file.size.value == 0
       || file.contentType.None? || file.contentType.value == ""
       || PrimaryType(file.contentType.value) != "image"
    {
      return Failure(InvalidFile), between;
    }
    if ExceedsLimit(file.size.value, maxFileSizeMb) {
      return Failure(ImageTooBig), between;
    }
    var image := NewImage(ownerId, title, newId, now, Done);
    var ok := repo.CreateMeta(image);
    between := repo.State();
    repo.fileRepository.Save(image, file);
    r := Success(image.id);
  }

  /**
   * A DONE record written before its blob: the state between the two writes of
   * create_image breaks the lifecycle invariant whenever the id had no file yet.
   */
  lemma UploadWindowBreaksDoneHasBlob(s: StoreState, dir: string, row: ImageRow)
    requires row.status == Done && GetPath(dir, row.id) !in s.files
    ensures !DoneHasBlob(StoreState(s.rows[row.id := row], s.files), dir)
  {
  }

  /**
   * edit_image: writes a new PROCESSING record for the derived image and sends one job
   * (id_, new id, action). It neither reads nor checks `id`, and touches no blob.
   */
  method EditImage(repo: ImageRepository, queue: Tasks.TaskQueue, id: Uuid, ownerId: Uuid,
                   newTitle: string, action: EditAction, newId: Uuid, now: Timestamp)
    returns (newImage: Image)
    requires repo.Valid()
    requires newId !in repo.rows && newId != id
    modifies repo`rows, queue
    ensures repo.Valid()
    ensures newImage == NewImage(ownerId, newTitle, newId, now, Processing)
    ensures newImage.id != id && newImage.status == Processing
    ensures repo.rows == old(repo.rows)[newId := ModelToTable(newImage)]
    ensures queue.jobs == old(queue.jobs) + [Tasks.Job(id, newId, ActionName(action))]
    ensures repo.fileRepository.files == old(repo.fileRepository.files)
    ensures id in old(repo.rows) ==> id in repo.rows && repo.rows[id] == old(repo.rows[id])
    ensures old(repo.Consistent()) ==> repo.Consistent()
  {
    newImage := NewImage(ownerId, newTitle, newId, now, Processing);
    var ok := repo.CreateMeta(newImage);
    queue.Delay(Tasks.Job(id, newImage.id, ActionName(action)));
  }
}
