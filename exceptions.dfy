/**
 * The errors the image service raises (src/app/images/exceptions.py), as one datatype.
 * FileNotFound stands for the storage error (FileNotFoundError from the file system)
 * that the service lets propagate when a blob is missing.
 */
module Exceptions {
  import opened Models

  datatype ImageError =
    | ImageNotFound(imageId: Uuid)
    | UserIsNotOwner
    | ImageIsStillProcessing
    | InvalidFile
    | ImageTooBig
    | FileNotFound(imageId: Uuid)
}
