/**
 * The life of one image through the production stores: an upload, a read, an edit
 * request, the worker running the job, and the reads of the derived image.
 */
module Scenarios {
  import opened Wrappers
  import opened Models
  import opened Exceptions
  import opened Repositories
  import opened Services
  import opened Tasks

  /** Uploads `data` as "cat" under id a into empty stores and reads its record and its file back. */
  method UploadScenario(data: Bytes, dir: string, chunkSize: int, maxFileSizeMb: int,
                        owner: Uuid, a: Uuid, t0: Timestamp)
    returns (uploaded: Result<Uuid, ImageError>, metaA: Result<Image, ImageError>, fileA: Result<Bytes, ImageError>)
    requires chunkSize != 0
    requires 0 < |data| <= maxFileSizeMb * MiB
    ensures uploaded == Success(a)
    ensures metaA.Success? && metaA.value.title == "cat" && metaA.value.ownerId == owner
            && metaA.value.status == Done && metaA.value.contentType == "image/png"
    ensures fileA == Success(data)
  {
    var fileRepo := new ImageFileRepository(dir, chunkSize, map[]);
    var repo := new ImageRepository(fileRepo, map[]);
    var upload := new UploadFile(Some("image/png"), Some(|data|), data);
    assert IsImageContentType("image/png");
    ghost var between: StoreState;
    uploaded, between := CreateImage(repo, upload, "cat", owner, maxFileSizeMb, a, t0);
    assert repo.rows == map[a := ImageRow(a, owner, "cat", Done, t0)];
    assert repo.fileRepository.files == map[GetPath(dir, a) := data];
    metaA := GetImageMeta(repo, a, owner);
    fileA := GetImageFile(repo.fileRepository, metaA.value);
  }

  /**
   * Starting from the stores an upload of "cat" (id a) leaves, asks for an inverted
   * copy "cat-inverted" (id b), reads b while it is processing, lets the worker drain
   * the queue and reads b again.
   */
  method EditScenario(pil: Pil, f: Channel -> Channel, data: Bytes, picture: Picture,
                      dir: string, chunkSize: int, owner: Uuid, a: Uuid, b: Uuid, t0: Timestamp, t1: Timestamp)
    returns (edited: Image, fileBEarly: Result<Bytes, ImageError>,
             metaB: Result<Image, ImageError>, fileB: Result<Bytes, ImageError>)
    requires a != b
    requires pil.open(data) == Some(picture) && picture.mode == RGBA && |picture.bands| == 4
    requires InvertsBandwise(pil, f)
    ensures edited.id == b && edited.status == Processing && edited.title == "cat-inverted"
    ensures fileBEarly == Failure(ImageIsStillProcessing)
    ensures metaB.Success? && metaB.value.title == "cat-inverted" && metaB.value.status == Done
    ensures fileB == Success(pil.savePng(Picture(RGBA, [f(picture.bands[0]), f(picture.bands[1]),
                                                        f(picture.bands[2]), picture.bands[3]])))
  {
    var fileRepo := new ImageFileRepository(dir, chunkSize, map[GetPath(dir, a) := data]);
    var repo := new ImageRepository(fileRepo, map[a := ImageRow(a, owner, "cat", Done, t0)]);
    var queue := new TaskQueue();

    edited := EditImage(repo, queue, a, owner, "cat-inverted", Invert, b, t1);
    fileBEarly := GetImageFile(repo.fileRepository, edited);
    assert queue.jobs == [Job(a, b, "invert")];
    ghost var before := repo.State();
    assert before.files == map[GetPath(dir, a) := data];
    assert b in before.rows;

    var ran := RunNextJob(queue, repo, pil);
    GetPathInjective(dir, a, b);
    InvertJobKeepsAlpha(pil, f, data, picture);
    assert EditJob(before, dir, pil, Job(a, b, "invert")).Completed?;

    metaB := GetImageMeta(repo, b, owner);
    fileB := GetImageFile(repo.fileRepository, metaB.value);
  }

  /**
   * The file store: an upload saved chunk by chunk reads back whole, save_bytes replaces
   * it, and an image whose file was never written has none.
   */
  method BlobStoreRoundTrip(dir: string, chunkSize: int, image: Image, other: Image, data: Bytes, later: Bytes)
    returns (afterSave: Option<Bytes>, afterSaveBytes: Option<Bytes>, otherBlob: Option<Bytes>)
    requires chunkSize != 0 && other.id != image.id
    ensures afterSave == Some(data)
    ensures afterSaveBytes == Some(later)
    ensures otherBlob == None
  {
    var repo := new ImageFileRepository(dir, chunkSize, map[]);
    var upload := new UploadFile(Some("image/png"), Some(|data|), data);
    repo.Save(image, upload);
    afterSave := repo.Get(image);
    repo.SaveBytes(image, later);
    afterSaveBytes := repo.Get(image);
    GetPathInjective(dir, image.id, other.id);
    otherBlob := repo.Get(other);
  }
}
