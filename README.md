# Hogwarts school records: the service layer in Dafny

This project models the three service classes of a small Spring Boot
student-records application (`ru.hogwarts.school`) and proves what they
promise:

- `AvatarService` stores a student's avatar twice: as a file written under
  `avatars/`, and as a copy of the bytes in the student's avatar row. It also
  derives a file extension from the uploaded file's name.
- `FacultyService` covers faculty CRUD, the colour and name searches, the
  students of a faculty, and the longest faculty name.
- `StudentService` covers student CRUD, the age queries, and a student's faculty.

The database is modelled as one repository class per table. Each holds its
rows in a `map` from generated id to entity, plus an identity generator
`nextId`. The file system is a class holding a `map` from absolute path to
bytes. Services are classes holding references to the repositories they use.
Methods that save or delete change those maps, and their `modifies` clauses
name exactly the stores they touch. Queries are functions that read them.

Files:

- `Wrappers.dfy`: `Option` (null / empty `Optional`) and `Result` (a thrown exception).
- `Tables.dfy`: the key `save` writes, and the rows a derived query returns, in ascending id order.
- `Text.dfy`: `lastIndexOf`, decimal rendering of a `long`, ASCII case folding, substring search.
- `Entities.dfy`: `Student`, `Faculty`, `Avatar`, the uploaded `MultipartFile`, and the exceptions.
- `Repositories.dfy`: the student, faculty and avatar repositories, and the file store.
- `Students.dfy`, `Faculties.dfy`, `Avatars.dfy`: the three services and the lemmas about them.

Modelling choices:

- An entity's reference to another entity is a foreign key. A student's
  faculty is `Option<Id>`, and so is an avatar's student. Following a
  reference reads the target table. That is why `StudentService` reads the
  faculty table for `getFaculty()`, and `FacultyService` reads the student
  table for `getStudents()`.
- `findAll` and every list-returning query give rows in ascending id order.
  The "first name on ties" rule of `getLongestFacultyName` is stated against
  that order.
- `save` follows Spring Data's rule. An entity without an id, or with an id
  the table does not hold, is inserted under a fresh generated id. An entity
  whose id is in the table replaces that row.
- `System.currentTimeMillis()` is the parameter `now` of `UploadAvatar`. The
  process's working directory is `FileStore.cwd`.
- `getFileExtension` falls back to `""` for a null name or one without a
  dot. The upload's file name embeds the value of
  `System.currentTimeMillis()`, so two uploads for one student whose clock
  values differ write to different paths
  (`UploadsAtDistinctTimesUseDistinctPaths`). Two uploads with the same clock
  value and the same extension share a path, and the later write replaces
  the file. No earlier file is ever deleted.
- `String.length()` counts UTF-16 code units, so `getLongestFacultyName`
  compares names by `Text.Utf16Length`: a character outside the Basic
  Multilingual Plane counts twice.
- The service enforces no size limit, and the model has none.

## Model

| member | source | states |
|---|---|---|
| `Avatars.GetFileExtension` | src/main/java/ru/hogwarts/school/service/AvatarService.java:63-67 | "" exactly when the name is null or has no '.'; otherwise a suffix of the name that starts with '.' and has no further '.'; total (never fails) |
| `Avatars.ExtensionIsUnique` | src/main/java/ru/hogwarts/school/service/AvatarService.java:63-67 | any non-empty suffix of the name that starts with '.' and has no other '.' is the extension returned, so the extension is the part from the last dot |
| `Avatars.FileExtensionExamples` | src/main/java/ru/hogwarts/school/service/AvatarService.java:63-67 | "test.jpg" gives ".jpg" and "archive.tar.gz" gives ".gz" |
| `Avatars.NoFileExtensionExamples` | src/main/java/ru/hogwarts/school/service/AvatarService.java:63-67 | "photo" and a null name both give "" |
| `Text.LastIndexOf` | src/main/java/ru/hogwarts/school/service/AvatarService.java:65 | -1 exactly when the character is absent; otherwise a position holding it with no occurrence after it |
| `Avatars.FileNameParts` | src/main/java/ru/hogwarts/school/service/AvatarService.java:53-54 | a name `avatar_<digits>_<digits><extension>` determines its three parts |
| `Avatars.AvatarFileNameInjective` | src/main/java/ru/hogwarts/school/service/AvatarService.java:53-54 | equal avatar file names come from the same student id, timestamp and extension |
| `Avatars.UploadsAtDistinctTimesUseDistinctPaths` | src/main/java/ru/hogwarts/school/service/AvatarService.java:53-58 | two uploads for one student whose clock values differ write to different absolute paths, whatever the two original file names |
| `Avatars.AvatarFileName` | src/main/java/ru/hogwarts/school/service/AvatarService.java:53-54 | the name starts with `avatar_` and ends with the extension |
| `Avatars.AvatarPath` | src/main/java/ru/hogwarts/school/service/AvatarService.java:53-55 | the relative path lies under `avatars/` and ends with the extension |
| `Text.DecimalString` | src/main/java/ru/hogwarts/school/service/AvatarService.java:53 | the decimal rendering of a non-negative `long`: at least one character, all of them digits, at least two from 10 on |
| `Text.DecimalStringInjective` | src/main/java/ru/hogwarts/school/service/AvatarService.java:53 | different ids or timestamps render as different decimal strings |
| `Text.DigitRunsAgree` | src/main/java/ru/hogwarts/school/service/AvatarService.java:53-54 | a digit run followed by a non-digit is read back unambiguously from a concatenation |
| `Text.DigitRunLengthOf` | src/main/java/ru/hogwarts/school/service/AvatarService.java:53-54 | the digit run at the start of `digits + rest` is exactly `digits` when `rest` starts with a non-digit |
| `Repositories.AvatarRepository.FindByStudentId` | src/main/java/ru/hogwarts/school/service/AvatarService.java:29 | a single-result query: empty iff no row below the generator belongs to the student; one such row is returned when it is the only one; IncorrectResultSize iff two such rows exist |
| `Avatars.AvatarService.FindAvatarByStudentId` | src/main/java/ru/hogwarts/school/service/AvatarService.java:28-30 | empty iff no row belongs to the student; a returned row is that student's only row; fails with IncorrectResultSize iff two distinct rows belong to the student |
| `Avatars.AvatarService.SaveAvatar` | src/main/java/ru/hogwarts/school/service/AvatarService.java:37-39 | upsert: a row with a known id is replaced, otherwise inserted under the next generated id; no other row changes |
| `Avatars.AvatarPathRejectedIffNulInExtension` | src/main/java/ru/hogwarts/school/service/AvatarService.java:52-55 | `Path.of` rejects the upload's path exactly when the extension taken from the client's file name holds a NUL |
| `Avatars.AvatarService.UploadAvatar` | src/main/java/ru/hogwarts/school/service/AvatarService.java:41-61 | unknown student: IllegalArgument("Student not found"), avatar table and files unchanged; several rows for the student: the lookup's failure, nothing changed; a path holding a NUL character: InvalidPath, raised before the write, nothing changed; otherwise the student's existing row is reused (a new row only if it has none), its student, media type, size, data and path are set from the upload, only the file `avatars/avatar_<id>_<now><ext>` is added or replaced and holds exactly the uploaded bytes, the row is the student's only one and matches its file, and one-row-per-student is preserved |
| `Avatars.UpsertKeepsOneAvatarPerStudent` | src/main/java/ru/hogwarts/school/service/AvatarService.java:45-60 | writing the only row of a student keeps every student at most one row |
| `Faculties.FacultyService.CreateFaculty` | src/main/java/ru/hogwarts/school/service/FacultyService.java:23-25 | stores the faculty under its id or a fresh one, returns it, and `findFaculty` of that id then returns it |
| `Faculties.FacultyService.FindFaculty` | src/main/java/ru/hogwarts/school/service/FacultyService.java:27-32 | null iff the id is null or unknown; otherwise the stored faculty with that id |
| `Faculties.FacultyService.EditFaculty` | src/main/java/ru/hogwarts/school/service/FacultyService.java:34-39 | null iff the id is null or unknown, and then the table is unchanged; otherwise exactly that row is replaced by the given faculty, which is returned |
| `Faculties.FacultyService.DeleteFaculty` | src/main/java/ru/hogwarts/school/service/FacultyService.java:41-43 | removes exactly that id (a missing id is ignored); `findFaculty` of it then returns null |
| `Faculties.FacultyService.GetFacultiesByColor` | src/main/java/ru/hogwarts/school/service/FacultyService.java:45-47 | exactly the stored faculties whose colour equals the argument, each once |
| `Faculties.FacultyService.GetAllFaculties` | src/main/java/ru/hogwarts/school/service/FacultyService.java:49-51 | exactly the stored faculties, each once |
| `Faculties.FacultyService.FindFacultiesByNameOrColor` | src/main/java/ru/hogwarts/school/service/FacultyService.java:53-55 | exactly the stored faculties whose name or colour contains the query, ignoring case, each once |
| `Text.ContainsIgnoreCase` | src/main/java/ru/hogwarts/school/service/FacultyService.java:54 | the upper-cased query occurs at some position of the upper-cased text |
| `Faculties.ColorMatchesAreSearchHits` | src/main/java/ru/hogwarts/school/service/FacultyService.java:45-55 | every faculty found by colour is also found by the name-or-colour search for that colour |
| `Faculties.EmptySearchFindsAll` | src/main/java/ru/hogwarts/school/service/FacultyService.java:49-55 | the empty query returns the same list as `getAllFaculties` |
| `Text.IsInfixIffOccurs` | src/main/java/ru/hogwarts/school/service/FacultyService.java:53-55 | the containment search agrees with "some window of the text spells the query" |
| `Text.InfixOccurs` | src/main/java/ru/hogwarts/school/service/FacultyService.java:53-55 | a containment hit has an occurrence position |
| `Text.OccurrenceIsInfix` | src/main/java/ru/hogwarts/school/service/FacultyService.java:53-55 | an occurrence at any position is found by the containment search |
| `Text.ContainsIgnoreCaseIsCaseBlind` | src/main/java/ru/hogwarts/school/service/FacultyService.java:53-55 | upper- or lower-casing either the text or the query does not change the answer |
| `Text.ContainsIgnoreCaseBasics` | src/main/java/ru/hogwarts/school/service/FacultyService.java:53-55 | a text contains itself and the empty query |
| `Text.UpperOfCased` | src/main/java/ru/hogwarts/school/service/FacultyService.java:53-55 | upper-casing after upper- or lower-casing gives the plain upper-case form |
| `Faculties.FacultyService.GetFacultyStudents` | src/main/java/ru/hogwarts/school/service/FacultyService.java:57-60 | the empty list for an unknown faculty; otherwise exactly the stored students whose faculty is that faculty, each once |
| `Faculties.FacultyService.GetLongestFacultyName` | src/main/java/ru/hogwarts/school/service/FacultyService.java:62-72 | over the names of `findAll` (`.map(Faculty::getName)`): "" for no faculties; otherwise a stored name at least as long as every stored name in UTF-16 code units, the first such one in `findAll` order |
| `Faculties.LongerOf` | src/main/java/ru/hogwarts/school/service/FacultyService.java:67 | one of the two names, as long as both in UTF-16 code units; the running maximum wins a tie |
| `Faculties.LongestFrom` | src/main/java/ru/hogwarts/school/service/FacultyService.java:65-67 | the fold returns the seed or one of the names, and none of them is longer |
| `Faculties.LongestName` | src/main/java/ru/hogwarts/school/service/FacultyService.java:65-68 | "" for no names; otherwise one of the names, and none is longer |
| `Faculties.LongestNameCountsCodeUnits` | src/main/java/ru/hogwarts/school/service/FacultyService.java:67 | five characters outside the Basic Multilingual Plane beat nine ASCII letters, as `String.length()` counts them |
| `Text.Utf16Length` | src/main/java/ru/hogwarts/school/service/FacultyService.java:67 | `String.length()` in UTF-16 code units: the character count plus one per character at or above U+10000, so between the character count and twice it |
| `Text.Utf16LengthIsCharCount` | src/main/java/ru/hogwarts/school/service/FacultyService.java:67 | the UTF-16 length equals the character count exactly when no character lies outside the Basic Multilingual Plane |
| `Faculties.LongestNameIsFirstLongest` | src/main/java/ru/hogwarts/school/service/FacultyService.java:65-68 | the max-by-length fold returns "" on no names, else the first name of greatest length |
| `Faculties.LongestFromIsFirstLongest` | src/main/java/ru/hogwarts/school/service/FacultyService.java:65-68 | the fold keeps the earlier name on equal lengths, so it ends on the first longest of all names seen |
| `Faculties.FirstLongestIsUnique` | src/main/java/ru/hogwarts/school/service/FacultyService.java:65-68 | only one position is the first longest, so the result of the fold is determined |
| `Students.StudentService.CreateStudent` | src/main/java/ru/hogwarts/school/service/StudentService.java:18-20 | stores the student under its id or a fresh one, returns it, and `findStudent` of that id then returns it |
| `Students.StudentService.FindStudent` | src/main/java/ru/hogwarts/school/service/StudentService.java:22-24 | the stored student for a known id; NoSuchElement (not null) for an unknown one |
| `Students.StudentService.EditStudent` | src/main/java/ru/hogwarts/school/service/StudentService.java:26-28 | saves unconditionally, with no existence check: a known id is replaced, an unknown or null id is inserted under a fresh id |
| `Students.StudentService.DeleteStudent` | src/main/java/ru/hogwarts/school/service/StudentService.java:30-32 | removes exactly that id; `findStudent` of it then fails with NoSuchElement |
| `Students.StudentService.GetStudentsByAge` | src/main/java/ru/hogwarts/school/service/StudentService.java:34-39 | null age: the same list as `getAllStudents`; otherwise exactly the stored students of that age; each student once |
| `Students.StudentService.GetAllStudents` | src/main/java/ru/hogwarts/school/service/StudentService.java:41-43 | exactly the stored students, each once |
| `Students.StudentService.GetStudentsByAgeBetween` | src/main/java/ru/hogwarts/school/service/StudentService.java:45-47 | exactly the stored students with min <= age <= max, both bounds inclusive, each once |
| `Students.AgeBetweenSameBoundIsAge` | src/main/java/ru/hogwarts/school/service/StudentService.java:34-47 | the range query with equal bounds returns the same list as the exact-age query |
| `Students.StudentService.GetStudentFaculty` | src/main/java/ru/hogwarts/school/service/StudentService.java:49-52 | NoSuchElement iff the student is unknown, so the null branch is never reached for a missing student; a faculty is returned iff the student refers to a stored faculty, and it is that faculty |
| `Repositories.StudentRepository.Save` | src/main/java/ru/hogwarts/school/service/StudentService.java:19 | upsert by id with a fresh generated id for new rows; only that row changes |
| `Repositories.StudentRepository.DeleteById` | src/main/java/ru/hogwarts/school/service/StudentService.java:31 | removes exactly that id |
| `Repositories.FacultyRepository.Save` | src/main/java/ru/hogwarts/school/service/FacultyService.java:24 | upsert by id with a fresh generated id for new rows; only that row changes |
| `Repositories.FacultyRepository.DeleteById` | src/main/java/ru/hogwarts/school/service/FacultyService.java:42 | removes exactly that id |
| `Repositories.AvatarRepository.Save` | src/main/java/ru/hogwarts/school/service/AvatarService.java:38 | upsert by id with a fresh generated id for new rows; only that row changes |
| `Repositories.FileStore.Absolute` | src/main/java/ru/hogwarts/school/service/AvatarService.java:58 | `toAbsolutePath().toString()`: the working directory, exactly one `/`, then the relative path, not normalised |
| `Repositories.FileStore.AbsoluteInjective` | src/main/java/ru/hogwarts/school/service/AvatarService.java:58 | two relative paths with the same absolute path are equal |
| `Repositories.FileStore.Write` | src/main/java/ru/hogwarts/school/service/AvatarService.java:57 | only the file at the absolute form of the path is created or replaced, with exactly the given bytes |
| `Tables.SaveKey` | src/main/java/ru/hogwarts/school/service/AvatarService.java:60 | `save` writes the entity's own row if its id is stored, and the next generated id otherwise |
| `Tables.KeysWhere` | src/main/java/ru/hogwarts/school/service/AvatarService.java:29 | exactly the stored keys whose rows match, strictly ascending |
| `Tables.KeysWhereCount` | src/main/java/ru/hogwarts/school/service/AvatarService.java:29 | a single-result query finds no key iff no row matches, one key iff that row is the only match, and two or more iff two different rows match |
| `Tables.Select` | src/main/java/ru/hogwarts/school/repositories/StudentRepository.java:10-12 | position by position, the rows of the matching keys in ascending key order, one row per key: every returned row is stored and matches, and every stored matching row is returned |
| `Tables.SelectMembers` | src/main/java/ru/hogwarts/school/repositories/StudentRepository.java:10-12 | with every key below the generator and every row carrying its own key, a query returns exactly the stored matching rows, none twice |
| `Tables.SelectAgrees` | src/main/java/ru/hogwarts/school/repositories/StudentRepository.java:10-12 | two filters that agree on every stored row give the same list |

## Left out

- Controllers (`FacultyController`, `AvatarController`, `InfoController`): web plumbing that turns null into 404/400 and applies request defaults.
- `getAllAvatars`: it only calls Spring Data paging (`PageRequest`, `Page`), which is not part of this model.
- The avatar read paths (preview and full download) belong to a student controller that is not part of this model.
- The aggregate queries of `StudentRepository` (count, average age, last five): no service calls them, and the average is floating point.
- I/O and database failure: `Files.createDirectories` is not modelled (directories are implicit in the path map), `Files.write` always succeeds, and so does the repository's `save`. The source writes the file before it saves the row, so a failing save would leave the new file with no row pointing to it; the model does not capture that state.
- Concurrency: every operation runs alone. There is no per-student locking in the source either.
- Logging.
- Nulls are modelled only where the source tests for null or carries a nullable value through: `findFaculty`'s id, `editFaculty`'s id, `getStudentsByAge`'s age and the upload's file name (tested), the upload's content type (copied into the row unchecked), and every entity's `id` (null for an entity not yet saved). Elsewhere ids passed as arguments are non-null and names, colours and ages are plain values. For a null id, Spring Data's `findById` and `deleteById` would throw.
- Foreign-key constraints: deleting a faculty that students still refer to, or a student with an avatar row, succeeds in the model. The database may refuse it. A reference to a deleted faculty resolves to no faculty.
- `save` of an entity whose id is not in the table is modelled as an insert under a fresh id. Some Hibernate versions throw instead.
- Case-insensitive search folds ASCII letters only. The database's collation may also fold other letters.
- List order is ascending id. The database gives no order without `ORDER BY`.
- The entity objects' identity and aliasing are not modelled. `uploadAvatar`'s setters are successive updates of an `Avatar` value, which is then saved.
- Path separators are `/`, as on Unix, and `toAbsolutePath` does not normalise.
- Avatars.AvatarPath: keeps the joined string verbatim. `Path.of` on Unix also drops a trailing `/` and collapses a repeated `/`, which an extension such as `.png/` or `.a//b` triggers; there the model writes and records the string as joined, where the source uses the cleaned-up path.
- Avatars.AvatarService.UploadAvatar: fails only for a NUL character. `Path.of` also throws `InvalidPathException` for characters the JVM's file-name encoding cannot represent; that depends on the platform's locale and is not modelled.
