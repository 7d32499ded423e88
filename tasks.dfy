/**
 * The edit pipeline of src/app/images/tasks.py: the picture transforms and the job
 * that turns the blob of an original image into the blob of its derived image.
 */
module Tasks {
  import opened Wrappers
  import opened Models
  import opened Repositories

  /** The PIL image modes the transforms tell apart. */
  datatype Mode = L | RGB | RGBA | OtherMode(name: string)

  /** The samples of one band (channel) of a picture. */
  type Channel = seq<byte>

  /** A decoded picture: its mode and its bands, in the order of the mode's letters. */
  datatype Picture = Picture(mode: Mode, bands: seq<Channel>)

  /** Image.split() */
  function Split(p: Picture): seq<Channel>
  {
    p.bands
  }

  /** Image.merge(mode, bands) */
  function Merge(mode: Mode, bands: seq<Channel>): Picture
  {
    Picture(mode, bands)
  }

  /**
   * The calls into the imaging library, whose pixel arithmetic and codecs are outside
   * the model: Image.open (None when the bytes are not a picture it can identify),
   * ImageOps.invert (None when it raises, as it does for modes it does not support),
   * transpose(ROTATE_90), and save(format="PNG").
   */
  datatype Pil = Pil(
    open: Bytes -> Option<Picture>,
    invert: Picture -> Option<Picture>,
    rotate90: Picture -> Picture,
    savePng: Picture -> Bytes)

  /** _rotate_image: the angle argument is not used; the rotation is always 90 degrees. */
  function RotateImage(pil: Pil, image: Picture, angle: int): (r: Picture)
    ensures r == pil.rotate90(image)
  {
    pil.rotate90(image)
  }

  lemma RotateIgnoresAngle(pil: Pil, image: Picture, angle: int)
    ensures RotateImage(pil, image, angle) == RotateImage(pil, image, 90) == pil.rotate90(image)
  {
  }

  /**
   * _invert_image. An RGBA picture has its alpha band split off, the R, G and B bands
   * are merged into an RGB picture and inverted, and the inverted bands are merged with
   * the untouched alpha band. Any other picture is inverted as a whole. None stands for
   * an error: a tuple unpacking of the wrong number of bands, or the library raising.
   */
  function InvertImage(pil: Pil, image: Picture): (r: Option<Picture>)
    ensures image.mode != RGBA ==> r == pil.invert(image)
    ensures image.mode == RGBA && r.Some? ==>
              |image.bands| == 4 && r.value.mode == RGBA && |r.value.bands| == 4
              && r.value.bands[3] == image.bands[3]
    ensures image.mode == RGBA && |image.bands| == 4 && r.Some? ==>
              (var inv := pil.invert(Picture(RGB, image.bands[..3]));
               inv.Some? && r.value.bands[..3] == inv.value.bands)
    ensures image.mode == RGBA && |image.bands| == 4 ==>
              (r.Some? <==> (var inv := pil.invert(Picture(RGB, image.bands[..3]));
                             inv.Some? && |inv.value.bands| == 3))
  {
    if image.mode == RGBA then
      var bands := Split(image);
      if |bands| != 4 then None
      else
        var rgbImage := Merge(RGB, [bands[0], bands[1], bands[2]]);
        assert rgbImage.bands == image.bands[..3];
        match pil.invert(rgbImage)
        case None => None
        case Some(invertedImage) =>
          var bands2 := Split(invertedImage);
          if |bands2| != 3 then None
          else Some(Merge(RGBA, [bands2[0], bands2[1], bands2[2], bands[3]]))
    else
      pil.invert(image)
  }

  function MapBands(f: Channel -> Channel, bands: seq<Channel>): (r: seq<Channel>)
    ensures |r| == |bands| && forall i :: 0 <= i < |bands| ==> r[i] == f(bands[i])
  {
    seq(|bands|, i requires 0 <= i < |bands| => f(bands[i]))
  }

  /**
   * A library whose ImageOps.invert works band by band on L and RGB pictures, applying
   * the same sample transformation f to each band (Pillow's is the 255 - x table).
   */
  ghost predicate InvertsBandwise(pil: Pil, f: Channel -> Channel)
  {
    forall p: Picture :: p.mode == L || p.mode == RGB ==>
      pil.invert(p) == Some(Merge(p.mode, MapBands(f, Split(p))))
  }

  /** With such a library, an RGBA picture has R, G and B inverted and alpha kept as it was. */
  lemma InvertRgbaKeepsAlpha(pil: Pil, f: Channel -> Channel, image: Picture)
    requires InvertsBandwise(pil, f)
    requires image.mode == RGBA && |image.bands| == 4
    ensures InvertImage(pil, image) ==
              Some(Picture(RGBA, [f(image.bands[0]), f(image.bands[1]), f(image.bands[2]), image.bands[3]]))
  {
    var rgb := Picture(RGB, image.bands[..3]);
    assert pil.invert(rgb) == Some(Merge(RGB, MapBands(f, Split(rgb))));
  }

  /** With such a library, an L or RGB picture has every band inverted. */
  lemma InvertOtherModes(pil: Pil, f: Channel -> Channel, image: Picture)
    requires InvertsBandwise(pil, f)
    requires image.mode == L || image.mode == RGB
    ensures InvertImage(pil, image) == Some(Picture(image.mode, MapBands(f, image.bands)))
  {
  }

  /** When the sample transformation undoes itself, inverting twice gives back the picture. */
  lemma InvertTwiceRestores(pil: Pil, f: Channel -> Channel, image: Picture)
    requires InvertsBandwise(pil, f)
    requires forall c :: f(f(c)) == c
    requires (image.mode == RGBA && |image.bands| == 4) || image.mode == L || image.mode == RGB
    ensures InvertImage(pil, image).Some?
    ensures InvertImage(pil, InvertImage(pil, image).value) == Some(image)
  {
    if image.mode == RGBA {
      InvertRgbaKeepsAlpha(pil, f, image);
      var b := image.bands;
      var once := Picture(RGBA, [f(b[0]), f(b[1]), f(b[2]), b[3]]);
      InvertRgbaKeepsAlpha(pil, f, once);
      assert f(f(b[0])) == b[0] && f(f(b[1])) == b[1] && f(f(b[2])) == b[2];
      assert b == [b[0], b[1], b[2], b[3]];
    } else {
      InvertOtherModes(pil, f, image);
      var once := InvertImage(pil, image).value;
      InvertOtherModes(pil, f, once);
      assert MapBands(f, MapBands(f, image.bands)) == image.bands;
    }
  }

  /** The branch of _edit_image: "invert" inverts, every other action value rotates. */
  function ApplyAction(pil: Pil, image: Picture, action: string): (r: Option<Picture>)
    ensures action == ActionName(Invert) ==> r == InvertImage(pil, image)
    ensures action != ActionName(Invert) ==> r == Some(pil.rotate90(image))
  {
    if action == ActionName(Invert) then InvertImage(pil, image)
    else Some(RotateImage(pil, image, 90))
  }

  /** Bytes of the original to bytes of the derived image: open, transform, save as PNG. */
  function EditTransform(pil: Pil, original: Bytes, action: string): (r: Option<Bytes>)
    ensures r.Some? <==> pil.open(original).Some? && ApplyAction(pil, pil.open(original).value, action).Some?
    ensures r.Some? ==> r.value == pil.savePng(ApplyAction(pil, pil.open(original).value, action).value)
  {
    match pil.open(original)
    case None => None
    case Some(image) =>
      match ApplyAction(pil, image, action)
      case None => None
      case Some(edited) => Some(pil.savePng(edited))
  }

  /** Any action value other than "invert", "rotate90" included, selects the rotation. */
  lemma OtherActionsRotate(pil: Pil, original: Bytes, action: string)
    requires action != ActionName(Invert)
    ensures EditTransform(pil, original, action) == EditTransform(pil, original, ActionName(Rotate90))
    ensures EditTransform(pil, original, action) ==
              match pil.open(original)
              case None => None
              case Some(image) => Some(pil.savePng(pil.rotate90(image)))
  {
  }

  /** An "invert" job on an RGBA original stores the PNG of the colour-inverted picture with the original alpha. */
  lemma InvertJobKeepsAlpha(pil: Pil, f: Channel -> Channel, original: Bytes, image: Picture)
    requires InvertsBandwise(pil, f)
    requires pil.open(original) == Some(image)
    requires image.mode == RGBA && |image.bands| == 4
    ensures EditTransform(pil, original, ActionName(Invert)) ==
              Some(pil.savePng(Picture(RGBA, [f(image.bands[0]), f(image.bands[1]), f(image.bands[2]), image.bands[3]])))
  {
    InvertRgbaKeepsAlpha(pil, f, image);
  }

  /** The message edit_image_task.delay sends: the action travels as its enum string. */
  datatype Job = Job(origId: Uuid, newId: Uuid, action: string)

  /** The broker queue of edit jobs. */
  class TaskQueue {
    var jobs: seq<Job>

    constructor ()
      ensures jobs == []
    {
      jobs := [];
    }

    /** edit_image_task.delay */
    method Delay(job: Job)
      modifies this
      ensures jobs == old(jobs) + [job]
    {
      jobs := jobs + [job];
    }
  }

  /** Where a job stops when it does not run to completion; every such stop is an uncaught exception. */
  datatype AbortReason =
    | OriginalMissing      // get(None): there is no record under orig_id
    | OriginalFileMissing  // the original's file does not exist
    | NotAnImage           // Image.open cannot identify the bytes
    | TransformFailed      // _invert_image raised
    | DerivedMissing       // save_bytes(None, ...): there is no record under new_id

  datatype JobOutcome = Completed(output: Bytes) | Aborted(reason: AbortReason)

  /**
   * What _edit_image does with a job on the given stores, step by step as the source
   * does it. It completes exactly when both records and the original blob exist and the
   * transform succeeds, and then its output is the transform of the original blob.
   */
  function EditJob(s: StoreState, dir: string, pil: Pil, job: Job): (o: JobOutcome)
    ensures o.Completed? <==>
              job.origId in s.rows && job.newId in s.rows && GetPath(dir, job.origId) in s.files
              && EditTransform(pil, s.files[GetPath(dir, job.origId)], job.action).Some?
    ensures o.Completed? ==>
              Some(o.output) == EditTransform(pil, s.files[GetPath(dir, job.origId)], job.action)
  {
    if job.origId !in s.rows then Aborted(OriginalMissing)
    else if GetPath(dir, job.origId) !in s.files then Aborted(OriginalFileMissing)
    else
      match pil.open(s.files[GetPath(dir, job.origId)])
      case None => Aborted(NotAnImage)
      case Some(image) =>
        match ApplyAction(pil, image, job.action)
        case None => Aborted(TransformFailed)
        case Some(edited) =>
          if job.newId !in s.rows then Aborted(DerivedMissing)
          else Completed(pil.savePng(edited))
  }

  /**
   * The stores after a job: when it completes, the derived blob is written and the
   * derived record becomes DONE; when it aborts, which always happens before any write,
   * nothing changes.
   */
  function RunJob(s: StoreState, dir: string, pil: Pil, job: Job): (t: StoreState)
    ensures EditJob(s, dir, pil, job).Aborted? ==> t == s
    ensures EditJob(s, dir, pil, job).Completed? ==>
              t.rows.Keys == s.rows.Keys && job.newId in s.rows
              && t.rows[job.newId] == s.rows[job.newId].(status := Done)
              && GetPath(dir, job.newId) in t.files
              && t.files[GetPath(dir, job.newId)] == EditJob(s, dir, pil, job).output
  {
    match EditJob(s, dir, pil, job)
    case Completed(output) =>
      StoreState(s.rows[job.newId := s.rows[job.newId].(status := Done)],
                 s.files[GetPath(dir, job.newId) := output])
    case Aborted(_) => s
  }

  /**
   * After a job the original record and original blob are as they were, and every
   * other record and blob too; only the derived entries change.
   */
  lemma RunJobTouchesOnlyDerived(s: StoreState, dir: string, pil: Pil, job: Job, id: Uuid)
    requires id != job.newId
    ensures var t := RunJob(s, dir, pil, job);
            (id in t.rows <==> id in s.rows) && (id in s.rows ==> t.rows[id] == s.rows[id])
            && (GetPath(dir, id) in t.files <==> GetPath(dir, id) in s.files)
            && (GetPath(dir, id) in s.files ==> t.files[GetPath(dir, id)] == s.files[GetPath(dir, id)])
  {
    match EditJob(s, dir, pil, job)
    case Completed(output) =>
      WriteIsLocal(s.files, dir, job.newId, output, id);
    case Aborted(_) =>
  }

  /** A completed job leaves the derived record DONE with the derived blob in place; statuses never go back. */
  lemma RunJobCompletes(s: StoreState, dir: string, pil: Pil, job: Job)
    ensures var t := RunJob(s, dir, pil, job);
            EditJob(s, dir, pil, job).Completed? ==>
              job.newId in t.rows && t.rows[job.newId].status == Done
              && t.files[GetPath(dir, job.newId)] == EditJob(s, dir, pil, job).output
    ensures var t := RunJob(s, dir, pil, job);
            forall id :: id in s.rows && s.rows[id].status == Done ==> id in t.rows && t.rows[id].status == Done
  {
  }

  /** A job keeps the lifecycle invariant: the derived record is DONE only once its blob exists. */
  lemma RunJobKeepsDoneHasBlob(s: StoreState, dir: string, pil: Pil, job: Job)
    requires DoneHasBlob(s, dir)
    ensures DoneHasBlob(RunJob(s, dir, pil, job), dir)
  {
    var t := RunJob(s, dir, pil, job);
    forall id | id in t.rows && t.rows[id].status == Done
      ensures GetPath(dir, id) in t.files
    {
      if id != job.newId {
        RunJobTouchesOnlyDerived(s, dir, pil, job, id);
      }
    }
  }

  /**
   * Running a job a second time (a job delivered twice) changes nothing more, as long
   * as the job does not edit an image into itself.
   */
  lemma RunJobIdempotent(s: StoreState, dir: string, pil: Pil, job: Job)
    requires job.origId != job.newId
    ensures RunJob(RunJob(s, dir, pil, job), dir, pil, job) == RunJob(s, dir, pil, job)
  {
    var t := RunJob(s, dir, pil, job);
    RunJobTouchesOnlyDerived(s, dir, pil, job, job.origId);
    match EditJob(s, dir, pil, job)
    case Completed(output) =>
      assert EditJob(t, dir, pil, job) == Completed(output);
      assert t.rows[job.newId := t.rows[job.newId].(status := Done)] == t.rows;
      assert t.files[GetPath(dir, job.newId) := output] == t.files;
    case Aborted(_) =>
  }

  /**
   * _edit_image: reads both records, reads and transforms the original blob, writes the
   * result under the derived image's id, and only then sets the derived record to DONE.
   * `between` is the state of the stores between those two writes.
   */
  method EditImageJob(repo: ImageRepository, pil: Pil, job: Job) returns (outcome: JobOutcome, ghost between: StoreState)
    requires repo.Valid()
    modifies repo`rows, repo.fileRepository`files
    ensures repo.Valid()
    ensures outcome == EditJob(old(repo.State()), repo.fileRepository.imageDir, pil, job)
    ensures repo.State() == RunJob(old(repo.State()), repo.fileRepository.imageDir, pil, job)
    ensures outcome.Completed? ==> between == StoreState(old(repo.rows), repo.fileRepository.files)
    ensures outcome.Completed? && old(repo.Consistent()) ==> DoneHasBlob(between, repo.fileRepository.imageDir)
  {
    between := repo.State();
    var origImage := repo.GetMeta(job.origId);
    var newImage := repo.GetMeta(job.newId);
    if origImage.None? {
      return Aborted(OriginalMissing), between;
    }
    var origBytes := repo.fileRepository.Get(origImage.value);
    if origBytes.None? {
      return Aborted(OriginalFileMissing), between;
    }
    var image := pil.open(origBytes.value);
    if image.None? {
      return Aborted(NotAnImage), between;
    }
    var editedImage: Option<Picture>;
    if job.action == ActionName(Invert) {
      editedImage := InvertImage(pil, image.value);
    } else {
      editedImage := Some(RotateImage(pil, image.value, 90));
    }
    if editedImage.None? {
      return Aborted(TransformFailed), between;
    }
    var png := pil.savePng(editedImage.value);
    if newImage.None? {
      return Aborted(DerivedMissing), between;
    }
    repo.fileRepository.SaveBytes(newImage.value, png);
    between := repo.State();
    repo.UpdateStatus(job.newId, Done);
    outcome := Completed(png);
    if old(repo.Consistent()) {
      assert DoneHasBlob(old(repo.State()), repo.fileRepository.imageDir);
      forall id | id in between.rows && between.rows[id].status == Done
        ensures GetPath(repo.fileRepository.imageDir, id) in between.files
      {
        assert id in old(repo.rows);
      }
    }
  }

  /** The worker taking the next job off the queue and running it (edit_image_task). */
  method RunNextJob(queue: TaskQueue, repo: ImageRepository, pil: Pil) returns (ran: Option<(Job, JobOutcome)>)
    requires repo.Valid()
    modifies queue, repo`rows, repo.fileRepository`files
    ensures repo.Valid()
    ensures old(queue.jobs) == [] ==> ran.None? && queue.jobs == [] && repo.State() == old(repo.State())
    ensures old(queue.jobs) != [] ==>
              ran.Some? && ran.value.0 == old(queue.jobs[0]) && queue.jobs == old(queue.jobs[1..])
              && ran.value.1 == EditJob(old(repo.State()), repo.fileRepository.imageDir, pil, ran.value.0)
              && repo.State() == RunJob(old(repo.State()), repo.fileRepository.imageDir, pil, ran.value.0)
  {
    if queue.jobs == [] {
      return None;
    }
    var job := queue.jobs[0];
    queue.jobs := queue.jobs[1..];
    var outcome, _ := EditImageJob(repo, pil, job);
    ran := Some((job, outcome));
  }
}
