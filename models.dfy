/**
 * The image data model of src/app/images/models.py: the two string enums, the
 * uploaded-file protocol and the Image dataclass with its defaults.
 */
module Models {
  import opened Wrappers

  /** One byte of image content. */
  newtype byte = x: int | 0 <= x < 256

  type Bytes = seq<byte>

  /** A UUID is a 128-bit integer. */
  newtype Uuid = x: int | 0 <= x < 0x1_0000_0000_0000_0000_0000_0000_0000_0000

  /** An instant; the clock itself is outside the model. */
  type Timestamp = int

  /** ImageStatusEnum: a StrEnum whose auto() values are the lower-case member names. */
  datatype ImageStatus = Processing | Done

  function StatusName(s: ImageStatus): string
  {
    match s
    case Processing => "processing"
    case Done => "done"
  }

  function ParseStatus(t: string): (r: Option<ImageStatus>)
    ensures r.Some? ==> StatusName(r.value) == t
  {
    if t == "processing" then Some(Processing)
    else if t == "done" then Some(Done)
    else None
  }

  /** A status survives the trip through its enum string, and no other string names a status. */
  lemma StatusNameRoundTrip(s: ImageStatus, t: string)
    ensures ParseStatus(StatusName(s)) == Some(s)
    ensures ParseStatus(t) == Some(s) <==> t == StatusName(s)
  {
  }

  /** The status enum has exactly the two members PROCESSING and DONE. */
  lemma StatusHasTwoValues(s: ImageStatus)
    ensures s == Processing || s == Done
    ensures Processing != Done
  {
  }

  /** ImageEditActionEnum, also a StrEnum. */
  datatype EditAction = Invert | Rotate90

  function ActionName(a: EditAction): string
  {
    match a
    case Invert => "invert"
    case Rotate90 => "rotate90"
  }

  function ParseAction(t: string): (r: Option<EditAction>)
    ensures r.Some? ==> ActionName(r.value) == t
  {
    if t == "invert" then Some(Invert)
    else if t == "rotate90" then Some(Rotate90)
    else None
  }

  lemma ActionNameRoundTrip(a: EditAction, t: string)
    ensures ParseAction(ActionName(a)) == Some(a)
    ensures ParseAction(t) == Some(a) <==> t == ActionName(a)
  {
  }

  /** The action enum has exactly the two members INVERT and ROTATE90, with distinct names. */
  lemma ActionHasTwoValues(a: EditAction)
    ensures a == Invert || a == Rotate90
    ensures ActionName(Invert) != ActionName(Rotate90)
  {
  }

  const DefaultContentType: string := "image/png"

  /** The Image dataclass. Field order follows the source. */
  datatype Image = Image(
    ownerId: Uuid,
    title: string,
    status: ImageStatus,
    id: Uuid,
    createdAt: Timestamp,
    contentType: string)

  /**
   * Constructing an Image: status defaults to DONE and content type to "image/png";
   * the id (uuid4) and the creation time (datetime.now) are supplied by the caller.
   */
  function NewImage(ownerId: Uuid, title: string, id: Uuid, createdAt: Timestamp,
                    status: ImageStatus := Done, contentType: string := DefaultContentType): (img: Image)
    ensures img.ownerId == ownerId && img.title == title && img.id == id
    ensures img.status == status && img.createdAt == createdAt && img.contentType == contentType
  {
    Image(ownerId, title, status, id, createdAt, contentType)
  }

  /** A new Image given no status and no content type is DONE and "image/png". */
  lemma NewImageDefaults(ownerId: Uuid, title: string, id: Uuid, createdAt: Timestamp)
    ensures NewImage(ownerId, title, id, createdAt).status == Done
    ensures NewImage(ownerId, title, id, createdAt).contentType == "image/png"
  {
  }

  /**
   * An uploaded file (the IImageFile protocol, in production Starlette's UploadFile):
   * content type and size may each be absent; read(n) returns the next at most n bytes
   * of the stream, or the whole rest of it when n is negative.
   */
  class UploadFile {
    const contentType: Option<string>
    const size: Option<int>
    /** The whole content of the spooled upload. */
    const data: Bytes
    /** The read position in data. */
    var pos: nat

    ghost predicate Valid()
      reads this
    {
      pos <= |data|
    }

    /** What is left to read. */
    function Remaining(): Bytes
      reads this
      requires Valid()
    {
      data[pos..]
    }

    constructor (contentType: Option<string>, size: Option<int>, data: Bytes)
      ensures Valid()
      ensures this.contentType == contentType && this.size == size && this.data == data
      ensures pos == 0 && Remaining() == data
    {
      this.contentType := contentType;
      this.size := size;
      this.data := data;
      pos := 0;
    }

    method Read(n: int) returns (chunk: Bytes)
      requires Valid()
      modifies this`pos
      ensures Valid()
      ensures n < 0 ==> chunk == old(Remaining()) && pos == |data|
      ensures n >= 0 ==> pos == (if old(pos) + n <= |data| then old(pos) + n else |data|)
      ensures n >= 0 ==> chunk == data[old(pos)..pos]
    {
      if n < 0 || pos + n > |data| {
        chunk := data[pos..];
        pos := |data|;
      } else {
        chunk := data[pos..pos + n];
        pos := pos + n;
      }
    }
  }
}
