# Image lifecycle of img_fastapi, modelled in Dafny

The model covers the image part of the service. Owners upload an image, read its record
and its bytes, and request edits (invert, rotate by 90 degrees). Each edit makes a new
derived image; the original is never changed. The model is built over two stores:

- the metadata store: the `image` table, a map from id to row;
- the blob store: the image directory, a map from file path to bytes.

The job queue that links the service to the background worker is a sequence of jobs.

Modules, one per source file:

- `Models` (`models.dfy`): the status and action enums with their string values, the `Image` record and its defaults, and the uploaded file (`UploadFile`, a class whose read position advances).
- `Exceptions` (`exceptions.dfy`): the service errors as one datatype.
- `UuidText` (`uuid_text.dfy`): `str(UUID)`, the canonical 8-4-4-4-12 hexadecimal text. It is proved to lose nothing, so that distinct images get distinct files.
- `Repositories` (`repositories.dfy`): `ImageRepository` (the table) and `ImageFileRepository` (the files). Both are classes whose methods update their map in place. The chunked `save` loop is proved against what it must store.
- `Tasks` (`tasks.dfy`): the picture transforms and the edit job. The job is specified by a function on the two stores (`EditJob`, `RunJob`), and the method is proved against it.
- `Services` (`services.dfy`): the read guards as functions, and the upload and edit requests as methods.
- `Fakes` (`conftest.dfy`): the dictionary-backed test repositories.
- `Scenarios` (`scenarios.dfy`): three client methods. The first uploads an image and reads it back. The second starts from the stores that upload leaves, edits the image, runs the worker and reads the derived image. The third checks the file store on its own.

Collaborators outside the model are parameters:

- the new id (`uuid4`) is `newId`, required to be absent from the table;
- the creation time is `now`;
- the imaging library is `Pil`, a record of function values;
- `MAX_FILE_SIZE_MB` is `maxFileSizeMb`;
- `FILE_CHUNK_SIZE` and `IMAGE_DIR_PATH` are constants of the file repository, given to its constructor.

The lifecycle invariant `DoneHasBlob` says that every DONE record has a file. It is proved to be kept by:

- whole uploads;
- edit requests;
- every step of a job, the state between its two writes included.

Where the code and the design description of the system differ, the model follows the code:

- `create_image` writes the record, already DONE, before the blob (`src/app/images/services.py:64-65`). The model exposes the state between the two writes as `between`. `UploadWindowBreaksDoneHasBlob` shows that this state breaks the invariant.
- Blob writes overwrite the file in place. There is no FAILED status and no retry. A job that fails leaves its derived record PROCESSING (`RunJob` returns the stores unchanged).
- The validation accepts any size that is not absent or zero, so a negative size passes. It accepts a content type whose text before the first `/` is `image`, so `image` alone passes (`UploadCheckCases`).
- The validation checks run in the source's order: file, size, content type, then the size limit.
- `ImageTable(**asdict(image))` passes a `content_type` keyword that the table has no column for. `ImageTable` derives from `common.database.Base` (`src/app/images/repositories.py:14`), and `common/database.py` is not part of this model. The model takes that base to be built like the declarative base of `src/app/db.py:16-22`, whose constructor skips keywords that are not columns. Under that assumption `content_type` is dropped, and a record read back has the default `image/png` (`TableRoundTrip`).

## Model

| member | source | states |
|---|---|---|
| Models.StatusHasTwoValues | src/app/images/models.py:8-10 | The status is PROCESSING or DONE, and the two differ. |
| Models.StatusNameRoundTrip | src/app/images/models.py:8-10 | A status survives the trip through its enum string ("processing", "done"), and no other string parses as that status. |
| Models.ActionHasTwoValues | src/app/images/models.py:13-15 | The edit action is INVERT or ROTATE90, and their names differ. |
| Models.ActionNameRoundTrip | src/app/images/models.py:13-15 | An action survives the trip through its enum string ("invert", "rotate90"), and no other string parses as it. |
| Models.NewImage | src/app/images/models.py:25-32 | A constructed Image carries exactly the owner, title, id, time, status and content type given. |
| Models.NewImageDefaults | src/app/images/models.py:29-32 | With no status and no content type given, an Image is DONE with content type "image/png". |
| Models.UploadFile.Read | src/app/images/models.py:18-22 | read(n) returns the next min(n, remaining) bytes and advances by that many; a negative n returns the whole rest. |
| UuidText.HexRoundTrip | src/app/images/repositories.py:60-61 | The n-digit hexadecimal text of any value below 16^n reads back as that value. |
| UuidText.UuidStringRoundTrip | src/app/images/repositories.py:60-61 | The 36-character text of a UUID, hyphens dropped, reads back as the UUID's value. |
| UuidText.UuidStringInjective | src/app/images/repositories.py:60-61 | Two UUIDs have the same text exactly when they are equal. |
| Repositories.ModelToTable | src/app/images/repositories.py:94 | The row keeps the record's id, owner, title, status and creation time. Reading it back gives the record with content type "image/png". |
| Repositories.TableToModel | src/app/images/repositories.py:84-91 | The record carries the row's id, owner, title, status and creation time, and content type "image/png", the dataclass default. |
| Repositories.GetPath | src/app/images/repositories.py:60-61 | The path lies directly in the image directory. Its 36-character name reads back as the image's id. |
| Repositories.GetPathInjective | src/app/images/repositories.py:60-61 | Two images get the same file path exactly when their ids are equal, so no two records share a blob. |
| Repositories.WriteIsLocal | src/app/images/repositories.py:60-72 | Writing one image's file leaves the presence and content of every other image's file unchanged. |
| Repositories.TableRoundTrip | src/app/images/repositories.py:84-96 | A row survives model-then-row conversion unchanged. A record read back keeps id, owner, title, status and time, and gets content type "image/png". It comes back equal exactly when its content type already was "image/png". |
| Repositories.ImageFileRepository.Save | src/app/images/repositories.py:63-67 | The file under the image's path becomes the concatenation of every chunk read, which is the whole unread stream; a chunk size of 0 stores nothing. No other path changes, and no other image's blob changes. |
| Repositories.ImageFileRepository.SaveBytes | src/app/images/repositories.py:69-72 | The image's file is replaced by exactly the given bytes and reads back as them; no other image's blob changes. |
| Repositories.ImageFileRepository.Get | src/app/images/repositories.py:74-77 | Returns the content stored under the image's path, and None exactly when there is no such file. |
| Repositories.ImageRepository.CreateMeta | src/app/images/repositories.py:93-96 | Adds the row of the record under its id. A duplicate primary key fails and leaves the table unchanged. |
| Repositories.ImageRepository.GetMetaList | src/app/images/repositories.py:98-103 | A record is in the result exactly when its row is in the table with that owner, and it is that row read back. |
| Repositories.ImageRepository.GetMeta | src/app/images/repositories.py:105-110 | None exactly when the id is unknown (not an error). Otherwise it is the record whose row is the stored one, with that id and content type "image/png". |
| Repositories.ImageRepository.UpdateStatus | src/app/images/repositories.py:112-121 | Only the status of the row with that id changes. Every other field and every other row stays as it was. An unknown id changes nothing. |
| Services.Partition | src/app/images/services.py:58 | head + separator + tail is the input. The head holds no separator, so it is the text before the first one. With no separator in the input, the head is the whole input. |
| Services.PartitionAfterPrefix | src/app/images/services.py:58 | After a separator-free prefix, the partition splits exactly at the next separator, or returns the whole prefix when nothing follows. |
| Services.PrimaryTypeIsImage | src/app/images/services.py:57-58 | The text before the first "/" is "image" exactly when the content type is "image" or starts with "image/". |
| Services.ExceedsLimitExactly | src/app/images/services.py:61 | size / (1024*1024) > MAX holds exactly when size > MAX*1024*1024, so the limit itself is accepted and limit + 1 is rejected. |
| Services.ValidateUpload | src/app/images/services.py:54-62 | The upload is accepted exactly when it has a file, a non-zero size, an image content type and a size within the limit. InvalidFile is raised exactly when one of the first four is missing, and TooBig otherwise. |
| Services.UploadCheckCases | src/app/images/services.py:54-62 | These are rejected as InvalidFile: no file, size 0 or absent, content type empty or absent, and "video/mp4". Limit + 1 is TooBig; the limit itself passes. "image" alone and a negative size pass. |
| Services.GetImageMeta | src/app/images/services.py:29-34 | An absent id fails with ImageNotFound carrying that id. A present record of another owner fails with UserIsNotOwner. Otherwise it succeeds with exactly the stored row read back: that id and owner, and content type "image/png". |
| Services.GetImageFile | src/app/images/services.py:41-44 | A PROCESSING record fails with ImageIsStillProcessing. A DONE record returns exactly the bytes under its id, or FileNotFound when there is no file. |
| Services.StillProcessingIgnoresStore | src/app/images/services.py:41-42 | For a PROCESSING record the result is the same whatever either blob store holds: the store is not read. |
| Services.DoneRecordIsReadable | src/app/images/services.py:41-44 | In stores that keep the lifecycle invariant, reading the file of any DONE record succeeds. |
| Services.CreateImage | src/app/images/services.py:54-66 | On a rejected upload it returns that error and changes neither store nor the file position. On an accepted one it adds exactly one DONE row with the given title and owner under the fresh id, and sets that id's blob to the stream's content. It returns the id. The record is written first (`between`). The lifecycle invariant is kept. |
| Services.UploadWindowBreaksDoneHasBlob | src/app/images/services.py:63-65 | The state between the record write and the blob write of an upload has a DONE record without a file. |
| Services.EditImage | src/app/images/services.py:77-86 | Adds one PROCESSING row for the new id, with the new title and the caller as owner; this id differs from `id`. It enqueues exactly one job (id, new id, action name) and returns the new record. It leaves the original row and every blob unchanged, and it does not require `id` to exist. |
| Tasks.TaskQueue.Delay | src/app/images/services.py:81-85 | The job is appended to the queue. |
| Tasks.RotateImage | src/app/images/tasks.py:52-53 | The result is the library's ROTATE_90 transpose of the picture, whatever angle is passed. |
| Tasks.RotateIgnoresAngle | src/app/images/tasks.py:52-53 | Whatever the angle argument, the result is the library's 90-degree rotation. |
| Tasks.InvertImage | src/app/images/tasks.py:56-66 | A non-RGBA picture is inverted as a whole. An RGBA result is RGBA with four bands. Its first three bands are the library's inversion of the input's R, G and B bands. Its alpha band is the input's. It succeeds exactly when the library inverts the RGB part into three bands. |
| Tasks.InvertRgbaKeepsAlpha | src/app/images/tasks.py:57-63 | With a band-wise invert, an RGBA picture has each of R, G and B inverted and keeps its alpha band unchanged. |
| Tasks.InvertOtherModes | src/app/images/tasks.py:64-66 | With a band-wise invert, an L or RGB picture has every band inverted. |
| Tasks.InvertTwiceRestores | src/app/images/tasks.py:56-66 | With a band-wise invert whose sample map undoes itself, inverting twice gives back the picture. |
| Tasks.ApplyAction | src/app/images/tasks.py:37-40 | "invert" is the inversion of the picture; any other action value is the 90-degree rotation, which cannot fail. |
| Tasks.EditTransform | src/app/images/tasks.py:36-42 | Defined exactly when the bytes open as a picture and the action's transform succeeds. The result is then the PNG encoding of the transformed picture. |
| Tasks.OtherActionsRotate | src/app/images/tasks.py:37-40 | Every action value other than "invert", "rotate90" included, gives the PNG of the 90-degree rotation. |
| Tasks.InvertJobKeepsAlpha | src/app/images/tasks.py:35-45 | An "invert" job on an RGBA original yields the PNG of the colour-inverted picture with the original alpha. |
| Tasks.EditJob | src/app/images/tasks.py:25-49 | A job completes exactly when both records and the original file exist and the transform succeeds. Its output is the transform of the original blob. |
| Tasks.RunJob | src/app/images/tasks.py:25-49 | An aborted job leaves both stores unchanged, because it stops before any write. A completed job keeps the set of records. It sets the derived record's status to DONE, keeps its other fields, and stores the job's output under the derived image's path. |
| Tasks.RunJobTouchesOnlyDerived | src/app/images/tasks.py:32-49 | Every record and blob other than the derived one is as before the job, the original's included. |
| Tasks.RunJobCompletes | src/app/images/tasks.py:43-49 | After a completed job the derived record is DONE and its blob is the job's output. No DONE record goes back to PROCESSING. |
| Tasks.RunJobKeepsDoneHasBlob | src/app/images/tasks.py:43-49 | A job keeps the lifecycle invariant: the derived record becomes DONE only with its blob in place. |
| Tasks.RunJobIdempotent | src/app/images/tasks.py:25-49 | Running the same job twice leaves the stores as running it once does (a job delivered twice), when the job does not edit an image into itself. |
| Tasks.EditImageJob | src/app/images/tasks.py:25-49 | The outcome and the new stores are those of EditJob and RunJob. Between the blob write and the status update only the blob is new, so that intermediate state keeps the invariant. |
| Tasks.RunNextJob | src/app/images/tasks.py:19-22 | With an empty queue nothing happens. Otherwise the head job is removed and run, and the stores become those RunJob gives. |
| Fakes.FakeImageFileRepository.Save | src/tests/conftest.py:13-14 | The dictionary maps the image's id to everything the file reads, and nothing else changes. |
| Fakes.FakeImageFileRepository.SaveBytes | src/tests/conftest.py:16-17 | The dictionary maps the image's id to the given bytes, replacing earlier content, and nothing else changes. |
| Fakes.FakeImageFileRepository.Get | src/tests/conftest.py:19-20 | Returns the stored bytes, and None (KeyError) exactly for an id never saved. |
| Fakes.FakeImageRepository.GetMeta | src/tests/conftest.py:30-31 | Returns the stored record, and None exactly when the id is absent. |
| Fakes.FakeImageRepository.CreateMeta | src/tests/conftest.py:33-34 | Stores the record under its own id, replacing any entry there, and changes no other entry. |
| Fakes.FakeBlobRoundTrip | src/tests/conftest.py:9-20 | save then get gives the file's bytes, save_bytes then get gives the new bytes, and another id reads as missing. |
| Fakes.FakeMetaRoundTrip | src/tests/conftest.py:23-34 | A record reads back as stored, and a second record under its id replaces it. A record under another id is not disturbed, and an unknown id is None. |
| Scenarios.UploadScenario | src/app/images/services.py:23-66 | Uploading into empty stores and reading back gives the title, the owner, DONE, content type "image/png" and the uploaded bytes. |
| Scenarios.EditScenario | src/app/images/services.py:69-86 | Starting from the stores an upload leaves, editing returns a PROCESSING record whose file is refused as still processing. After the worker runs the job, that record is DONE. Its file is the PNG of the original with R, G and B inverted and alpha kept. |
| Scenarios.BlobStoreRoundTrip | src/app/images/repositories.py:59-77 | A chunked save reads back as the whole upload, and save_bytes then replaces it. An image never written has no file. |

## Left out

- HTTP routing, status codes and the `/task-test` endpoint (`src/app/images/router.py`) are not modelled, nor are authentication and e-mail. The boundary contract appears only as the fact that `EditImage` trusts its caller.
- The async event loop, concurrent requests and workers, and Celery delivery, retries and serialisation are left out. Delivery is modelled as one sequential step, `RunNextJob`, which takes jobs in queue order.
- Real file and database I/O (aiofiles, SQLAlchemy sessions and commits) is replaced by the maps it reads and writes. Commit failures other than a duplicate key are not modelled.
- Image decoding and PNG encoding, and the pixel arithmetic of `ImageOps.invert` and `transpose`, belong to the imaging library. They are the function values of `Pil`. The model assumes nothing about what they compute; `InvertsBandwise` states the band-wise behaviour where a lemma needs it.
- Tasks.EditJob: `Image.open` and `ImageOps.invert` may fail (`None`), but `rotate90` and `savePng` are total functions. The model therefore assumes that `transpose` and `save(format="PNG")` never raise. Pillow rejects some mode and format pairs, for example a CMYK picture saved as PNG; no abort reason covers such a failure.
- Repositories.ModelToTable: it assumes that `common.database.Base`, which `ImageTable` derives from, is built like the declarative base of `src/app/db.py`, whose constructor skips the `content_type` keyword. With SQLAlchemy's default constructor, `ImageTable(**asdict(image))` would raise and every `create_meta` would fail.
- Tasks.RotateIgnoresAngle: the claim that width and height are swapped by a rotation is not stated, because pictures carry no dimensions and the rotation is the library's.
- uuid4 randomness and `datetime.now` are the parameters `newId` and `now`. Freshness is a precondition on `newId`.
- Repositories.ImageRepository.GetMetaList: the result is a set, so the order of the rows returned is not modelled; the query has no ORDER BY.
- Services.ExceedsLimitExactly: the test is modelled in exact real arithmetic. Python's float rounding, which matters only for sizes beyond 2^53 bytes, is not.
- The message strings of the exceptions (`src/app/images/exceptions.py`) are not modelled; only which error is raised, with the id it carries.
- Settings loading, app assembly, database and Celery setup, and dependency wiring are left out. `get_image_repository` is modelled by handing the job the same repository object the service uses, as both share one database and one directory.
- The `test_task` Celery task is left out; it only prints.
- Fakes.FakeImageFileRepository.Get: the KeyError for an unknown id is modelled as None rather than as an exception.
