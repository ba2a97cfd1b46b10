/**
 * The persistent entities of the school service and the values an upload
 * carries. Entity references (a student's faculty, an avatar's student) are
 * foreign keys, resolved against the owning table when they are followed.
 */
module Entities {
  import opened Wrappers
  import opened Tables

  type Byte = b: int | 0 <= b < 256

  /** A student; `id` is `None` until the row is first saved. */
  datatype Student = Student(id: Option<Id>, name: string, age: int, faculty: Option<Id>)

  /** A faculty; its students are the student rows whose `faculty` is its id. */
  datatype Faculty = Faculty(id: Option<Id>, name: string, color: string)

  /**
   * The avatar row of a student: where the full file was written, its size,
   * the declared media type, a copy of the bytes, and the owning student.
   * Fields holding Java references are `None` in a freshly constructed avatar.
   */
  datatype Avatar = Avatar(
    id: Option<Id>,
    filePath: Option<string>,
    fileSize: int,
    mediaType: Option<string>,
    data: Option<seq<Byte>>,
    student: Option<Id>)

  /** `new Avatar()`: every reference field null, `fileSize` zero. */
  const NewAvatar: Avatar := Avatar(None, None, 0, None, None, None)

  /** An uploaded multipart file as the service sees it. */
  datatype MultipartFile = MultipartFile(
    originalFilename: Option<string>,
    contentType: Option<string>,
    bytes: seq<Byte>)
  {
    /** `getSize()`: the number of bytes uploaded. */
    function Size(): nat {
      |bytes|
    }
  }

  /** The exceptions the services let escape. */
  datatype Error =
    | NoSuchElement               // `Optional.get()` on an empty optional
    | IllegalArgument(message: string)
    | IncorrectResultSize         // a single-result query that found several rows
    | InvalidPath(input: string, reason: string)  // `InvalidPathException` from parsing a path string
}
