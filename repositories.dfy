/**
 * The metadata repository (the `image` table) and the blob repository (one file per
 * image under the image directory) of src/app/images/repositories.py.
 */
module Repositories {
  import opened Wrappers
  import opened Models
  import UuidText

  /**
   * A row of the `image` table. Its columns are id_, owner_id, title, status and
   * created_at: there is no content-type column.
   */
  datatype ImageRow = ImageRow(id: Uuid, ownerId: Uuid, title: string, status: ImageStatus, createdAt: Timestamp)

  /**
   * ImageTable(**asdict(image)). The mapped base class is taken to be built like the
   * declarative base of src/app/db.py, whose constructor skips keyword arguments that are
   * not columns, so content_type is dropped and every column is kept.
   */
  function ModelToTable(image: Image): (row: ImageRow)
    ensures row.id == image.id && row.ownerId == image.ownerId && row.title == image.title
    ensures row.status == image.status && row.createdAt == image.createdAt
    ensures TableToModel(row) == image.(contentType := DefaultContentType)
  {
    ImageRow(image.id, image.ownerId, image.title, image.status, image.createdAt)
  }

  /** _table_to_model: an Image built from the columns, content type left to its default. */
  function TableToModel(row: ImageRow): (image: Image)
    ensures image.id == row.id && image.ownerId == row.ownerId && image.title == row.title
    ensures image.status == row.status && image.createdAt == row.createdAt
    ensures image.contentType == "image/png"
  {
    NewImage(row.ownerId, row.title, row.id, row.createdAt, row.status)
  }

  /**
   * Storing and reading back keeps every column; a record comes back unchanged exactly
   * when its content type is the default one, and otherwise with "image/png".
   */
  lemma TableRoundTrip(image: Image, row: ImageRow)
    ensures ModelToTable(TableToModel(row)) == row
    ensures TableToModel(ModelToTable(image)) == image.(contentType := "image/png")
    ensures TableToModel(ModelToTable(image)) == image <==> image.contentType == "image/png"
  {
  }

  /** A file system path `dir / name`. */
  datatype Path = Path(dir: string, name: string)

  /**
   * _get_path: IMAGE_DIR_PATH / str(image.id_). The file sits directly in the image
   * directory and its 36-character name reads back as the id.
   */
  function GetPath(dir: string, id: Uuid): (p: Path)
    ensures p.dir == dir && |p.name| == 36
    ensures UuidText.ParseUuidString(p.name) == id as int
  {
    UuidText.UuidStringRoundTrip(id);
    Path(dir, UuidText.UuidString(id))
  }

  /** Two images share a file exactly when they share an id. */
  lemma GetPathInjective(dir: string, u: Uuid, v: Uuid)
    ensures GetPath(dir, u) == GetPath(dir, v) <==> u == v
  {
    UuidText.UuidStringInjective(u, v);
  }

  /** Writing the file of one image leaves the file of every other image as it was. */
  lemma WriteIsLocal(files: map<Path, Bytes>, dir: string, id: Uuid, content: Bytes, other: Uuid)
    requires other != id
    ensures GetPath(dir, other) in files[GetPath(dir, id) := content] <==> GetPath(dir, other) in files
    ensures GetPath(dir, other) in files ==>
              files[GetPath(dir, id) := content][GetPath(dir, other)] == files[GetPath(dir, other)]
  {
    GetPathInjective(dir, id, other);
  }

  /**
   * What the chunked save loop stores from a stream whose unread part is `rest`:
   * reading chunks of size 0 yields b'' at once, so nothing is stored; any other chunk
   * size (a negative one reads everything in one call) stores the whole rest.
   */
  function SavedContent(chunkSize: int, rest: Bytes): Bytes
  {
    if chunkSize == 0 then [] else rest
  }

  /** Two adjacent slices of a sequence make up the slice that spans both. */
  lemma SliceSplit(d: Bytes, i: nat, j: nat, k: nat)
    requires i <= j <= k <= |d|
    ensures d[i..j] + d[j..k] == d[i..k]
  {
  }

  /** The state of both stores at one instant: the table and the image directory. */
  datatype StoreState = StoreState(rows: map<Uuid, ImageRow>, files: map<Path, Bytes>)

  /**
   * The lifecycle invariant: every record whose status is DONE has a file under its
   * id, so reading it cannot fail.
   */
  ghost predicate DoneHasBlob(s: StoreState, dir: string)
  {
    forall id :: id in s.rows && s.rows[id].status == Done ==> GetPath(dir, id) in s.files
  }

  /** ImageFileRepository: one file per image in the image directory. */
  class ImageFileRepository {
    /** settings.IMAGE_DIR_PATH */
    const imageDir: string
    /** settings.FILE_CHUNK_SIZE */
    const chunkSize: int
    /** The files of the image directory. */
    var files: map<Path, Bytes>

    constructor (imageDir: string, chunkSize: int, files: map<Path, Bytes>)
      ensures this.imageDir == imageDir && this.chunkSize == chunkSize && this.files == files
    {
      this.imageDir := imageDir;
      this.chunkSize := chunkSize;
      this.files := files;
    }

    /** _get_path */
    function PathOf(image: Image): Path
    {
      GetPath(imageDir, image.id)
    }

    /**
     * save: opens the image's file for writing (truncating it) and copies the upload
     * into it chunk by chunk until a read returns no bytes.
     */
    method Save(image: Image, file: UploadFile)
      requires file.Valid()
      modifies this`files, file`pos
      ensures file.Valid()
      ensures files == old(files)[PathOf(image) := SavedContent(chunkSize, old(file.Remaining()))]
      ensures forall other: Image :: other.id != image.id ==> Get(other) == old(Get(other))
    {
      var path := PathOf(image);
      ghost var start := file.pos;
      ghost var saved: Bytes := [];
      files := files[path := []];
      var chunk := file.Read(chunkSize);
      while chunk != []
        invariant file.Valid() && start <= file.pos
        invariant files == old(files)[path := saved]
        invariant saved + chunk == file.data[start..file.pos]
        invariant chunkSize == 0 ==> chunk == [] && file.pos == start
        invariant chunk == [] && chunkSize != 0 ==> file.pos == |file.data|
        decreases |file.data| - file.pos, |chunk|
      {
        files := files[path := files[path] + chunk];
        saved := saved + chunk;
        ghost var before := file.pos;
        chunk := file.Read(chunkSize);
        assert chunk == file.data[before..file.pos];
        SliceSplit(file.data, start, before, file.pos);
      }
      assert saved == SavedContent(chunkSize, old(file.Remaining())) by {
        if chunkSize != 0 {
          assert file.data[start..file.pos] == file.data[start..];
        }
      }
      forall other: Image | other.id != image.id
        ensures Get(other) == old(Get(other))
      {
        WriteIsLocal(old(files), imageDir, image.id, saved, other.id);
      }
    }

    /** save_bytes: replaces the whole content of the image's file. */
    method SaveBytes(image: Image, imageBytes: Bytes)
      modifies this`files
      ensures files == old(files)[PathOf(image) := imageBytes]
      ensures Get(image) == Some(imageBytes)
      ensures forall other: Image :: other.id != image.id ==> Get(other) == old(Get(other))
    {
      files := files[PathOf(image) := imageBytes];
      forall other: Image | other.id != image.id
        ensures Get(other) == old(Get(other))
      {
        WriteIsLocal(old(files), imageDir, image.id, imageBytes, other.id);
      }
    }

    /** get: the content of the image's file; None when there is no such file (FileNotFoundError). */
    function Get(image: Image): (r: Option<Bytes>)
      reads this
      ensures r.Some? <==> GetPath(imageDir, image.id) in files
      ensures r.Some? ==> r.value == files[GetPath(imageDir, image.id)]
    {
      if PathOf(image) in files then Some(files[PathOf(image)]) else None
    }
  }

  /** ImageRepository: the `image` table and the blob repository it hands out. */
  class ImageRepository {
    const fileRepository: ImageFileRepository
    /** The rows of the table, by primary key. */
    var rows: map<Uuid, ImageRow>

    /** Every row is filed under its own primary key. */
    ghost predicate Valid()
      reads this
    {
      forall id :: id in rows ==> rows[id].id == id
    }

    /** Both stores as one value. */
    function State(): StoreState
      reads this, fileRepository
    {
      StoreState(rows, fileRepository.files)
    }

    /** The lifecycle invariant on the current stores. */
    ghost predicate Consistent()
      reads this, fileRepository
    {
      DoneHasBlob(State(), fileRepository.imageDir)
    }

    constructor (fileRepository: ImageFileRepository, rows: map<Uuid, ImageRow>)
      requires forall id :: id in rows ==> rows[id].id == id
      ensures Valid() && this.fileRepository == fileRepository && this.rows == rows
    {
      this.fileRepository := fileRepository;
      this.rows := rows;
    }

    /**
     * create_meta: adds the row and commits. A second row with the same primary key
     * makes the commit fail (ok == false) and leaves the table as it was.
     */
    method CreateMeta(image: Image) returns (ok: bool)
      requires Valid()
      modifies this`rows
      ensures Valid()
      ensures ok <==> image.id !in old(rows)
      ensures rows == if ok then old(rows)[image.id := ModelToTable(image)] else old(rows)
    {
      ok := image.id !in rows;
      if ok {
        rows := rows[image.id := ModelToTable(image)];
      }
    }

    /** get_meta_list: the records of one owner, in no particular order. */
    function GetMetaList(ownerId: Uuid): (r: set<Image>)
      reads this
      requires Valid()
      ensures forall img :: img in r <==>
                img.id in rows && rows[img.id].ownerId == ownerId && img == TableToModel(rows[img.id])
    {
      set id | id in rows && rows[id].ownerId == ownerId :: TableToModel(rows[id])
    }

    /** get_meta: the record with that id, or None (not an error) when there is none. */
    function GetMeta(id: Uuid): (r: Option<Image>)
      reads this
      requires Valid()
      ensures r.None? <==> id !in rows
      ensures r.Some? ==> r.value.id == id && ModelToTable(r.value) == rows[id]
      ensures r.Some? ==> r.value.contentType == "image/png"
    {
      if id in rows then Some(TableToModel(rows[id])) else None
    }

    /**
     * update_status: an UPDATE of the status column of the row with that id; it
     * matches no row, and changes nothing, when the id is unknown.
     */
    method UpdateStatus(id: Uuid, status: ImageStatus)
      requires Valid()
      modifies this`rows
      ensures Valid()
      ensures rows == if id in old(rows) then old(rows)[id := old(rows)[id].(status := status)] else old(rows)
    {
      if id in rows {
        rows := rows[id := rows[id].(status := status)];
      }
    }
  }
}
