/**
 * The in-memory test backends of src/tests/conftest.py: dictionaries keyed by image id
 * standing in for the blob directory and the image table.
 */
module Fakes {
  import opened Wrappers
  import opened Models

  /** FakeImageFile: fixed bytes with a size and a content type; read() returns all the bytes, every time. */
  datatype FakeImageFile = FakeImageFile(bytes: Bytes, size: int, contentType: string)
  {
    function Read(): Bytes
    {
      bytes
    }
  }

  class FakeImageFileRepository {
    var storage: map<Uuid, Bytes>

    constructor ()
      ensures storage == map[]
    {
      storage := map[];
    }

    /** save: stores everything the file reads under the image's id. */
    method Save(image: Image, imageFile: FakeImageFile)
      modifies this
      ensures storage == old(storage)[image.id := imageFile.bytes]
    {
      storage := storage[image.id := imageFile.Read()];
    }

    /** save_bytes: stores the bytes under the image's id, replacing what was there. */
    method SaveBytes(image: Image, imageBytes: Bytes)
      modifies this
      ensures storage == old(storage)[image.id := imageBytes]
    {
      storage := storage[image.id := imageBytes];
    }

    /** get: the stored bytes; None for an id never saved (the KeyError of the dictionary). */
    function Get(image: Image): (r: Option<Bytes>)
      reads this
      ensures r.None? <==> image.id !in storage
      ensures r.Some? ==> r.value == storage[image.id]
    {
      if image.id in storage then Some(storage[image.id]) else None
    }
  }

  class FakeImageRepository {
    var storage: map<Uuid, Image>
    const fileRepository: FakeImageFileRepository

    constructor ()
      ensures storage == map[] && fresh(fileRepository) && fileRepository.storage == map[]
    {
      storage := map[];
      fileRepository := new FakeImageFileRepository();
    }

    /** get_meta: dict.get, None when absent. */
    function GetMeta(id: Uuid): (r: Option<Image>)
      reads this
      ensures r.None? <==> id !in storage
      ensures r.Some? ==> r.value == storage[id]
    {
      if id in storage then Some(storage[id]) else None
    }

    /** create_meta: stores the record under its own id, replacing any entry there. */
    method CreateMeta(image: Image)
      modifies this`storage
      ensures storage == old(storage)[image.id := image]
    {
      storage := storage[image.id := image];
    }
  }

  /**
   * The fake blob store: save then get returns the file's bytes, save_bytes then get
   * returns the new bytes in their place, and an id never saved is missing.
   */
  method FakeBlobRoundTrip(image: Image, file: FakeImageFile, later: Bytes, other: Image)
    returns (afterSave: Option<Bytes>, afterSaveBytes: Option<Bytes>, otherBlob: Option<Bytes>)
    requires other.id != image.id
    ensures afterSave == Some(file.bytes)
    ensures afterSaveBytes == Some(later)
    ensures otherBlob == None
  {
    var repo := new FakeImageFileRepository();
    repo.Save(image, file);
    afterSave := repo.Get(image);
    repo.SaveBytes(image, later);
    afterSaveBytes := repo.Get(image);
    otherBlob := repo.Get(other);
  }

  /**
   * The fake metadata store: a record reads back as stored, a second record under the
   * same id replaces it, and a record under another id is not disturbed.
   */
  method FakeMetaRoundTrip(image: Image, replacement: Image, other: Image)
    returns (first: Option<Image>, second: Option<Image>, otherMeta: Option<Image>, missing: Option<Image>)
    requires replacement.id == image.id && other.id != image.id
    ensures first == Some(image)
    ensures second == Some(replacement)
    ensures otherMeta == Some(other)
    ensures missing == None
  {
    var repo := new FakeImageRepository();
    missing := repo.GetMeta(image.id);
    repo.CreateMeta(image);
    repo.CreateMeta(other);
    first := repo.GetMeta(image.id);
    repo.CreateMeta(replacement);
    second := repo.GetMeta(image.id);
    otherMeta := repo.GetMeta(other.id);
  }
}
