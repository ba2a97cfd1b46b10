/**
 * `AvatarService`: storing a student's avatar both as a file and as a copy in
 * the student's avatar row. Every successful upload writes a file whose name
 * carries the clock value of the upload, and overwrites the fields of the
 * student's avatar row, or creates it; no earlier file is deleted. A student
 * with several avatar rows cannot upload.
 */
module Avatars {
  import opened Wrappers
  import opened Tables
  import opened Entities
  import opened Repositories
  import opened Text

  /** What `getFileExtension` can return: nothing, or a dot followed by dot-free text. */
  predicate IsExtension(ext: string) {
    ext == [] || (ext[0] == '.' && '.' !in ext[1..])
  }

  /**
   * `getFileExtension`: the part of the file name from its last dot on, dot
   * included; `""` for a null name or one without a dot. It never fails.
   */
  function GetFileExtension(fileName: Option<string>): (ext: string)
    ensures IsExtension(ext)
    ensures ext == "" <==> fileName.None? || '.' !in fileName.value
    ensures ext != "" ==> |ext| <= |fileName.value| && fileName.value[|fileName.value| - |ext|..] == ext
  {
    if fileName.Some? && '.' in fileName.value then
      fileName.value[LastIndexOf(fileName.value, '.')..]
    else ""
  }

  /** A name has only one suffix that starts with a dot and contains no other dot. */
  lemma ExtensionIsUnique(name: string, ext: string)
    requires ext != "" && IsExtension(ext)
    requires |ext| <= |name| && name[|name| - |ext|..] == ext
    ensures GetFileExtension(Some(name)) == ext
  {
  }

  /** Names with one dot and with two: the extension is taken from the last dot. */
  lemma FileExtensionExamples()
    ensures GetFileExtension(Some("test.jpg")) == ".jpg"
    ensures GetFileExtension(Some("archive.tar.gz")) == ".gz"
  {
    assert GetFileExtension(Some("test.jpg")) == ".jpg" by {
      ExtensionIsUnique("test.jpg", ".jpg");
    }
    ExtensionIsUnique("archive.tar.gz", ".gz");
  }

  /** A name without a dot and a null name both have the empty extension. */
  lemma NoFileExtensionExamples()
    ensures GetFileExtension(Some("photo")) == ""
    ensures GetFileExtension(None) == ""
  {
    assert "photo"[0] != '.' && "photo"[1] != '.' && "photo"[2] != '.' && "photo"[3] != '.' && "photo"[4] != '.';
  }

  /** Joining `dir` and `name` keeps `dir` as the prefix and any suffix of `name` as the suffix. */
  lemma JoinKeepsEnds(dir: string, name: string, ext: string)
    requires |ext| <= |name| && name[|name| - |ext|..] == ext
    ensures |dir + name| == |dir| + |name|
    ensures (dir + name)[..|dir|] == dir && (dir + name)[|dir| + |name| - |ext|..] == ext
  {
    assert (dir + name)[|dir| + |name| - |ext|..] == name[|name| - |ext|..];
  }

  /** `"avatar_" + studentId + "_" + System.currentTimeMillis() + extension`. */
  function AvatarFileName(studentId: Id, now: nat, ext: string): (name: string)
    ensures |name| > 7 + |ext| && name[..7] == "avatar_" && name[|name| - |ext|..] == ext
  {
    "avatar_" + DecimalString(studentId) + "_" + DecimalString(now) + ext
  }

  /**
   * `Path.of("avatars", fileName)` for the file name built from the student id,
   * the clock value and the extension: the upload's path relative to the
   * working directory.
   */
  function AvatarPath(studentId: Id, now: nat, ext: string): (path: string)
    ensures |path| > 8 + |ext| && path[..8] == "avatars/" && path[|path| - |ext|..] == ext
  {
    var dir, name := "avatars/", AvatarFileName(studentId, now, ext);
    assert |dir| == 8 && |ext| <= |name| && name[|name| - |ext|..] == ext;
    JoinKeepsEnds(dir, name, ext);
    dir + name
  }

  /**
   * Parsing a path string on Unix (`Path.of`) fails with `InvalidPathException`
   * when the string holds a NUL character.
   */
  predicate PathOfRejects(path: string) {
    '\0' in path
  }

  /** A NUL in a string built from NUL-free parts and a last part can only come from the last part. */
  lemma NulOnlyInLastPart(a: string, b: string, c: string, d: string, e: string, last: string)
    requires '\0' !in a && '\0' !in b && '\0' !in c && '\0' !in d && '\0' !in e
    ensures '\0' in a + b + c + d + e + last <==> '\0' in last
  {
  }

  /** Of the upload's path only the extension, which the client chose, can hold a NUL. */
  lemma AvatarPathRejectedIffNulInExtension(studentId: Id, now: nat, ext: string)
    ensures PathOfRejects(AvatarPath(studentId, now, ext)) <==> '\0' in ext
  {
    var dir, prefix, d1, d2 := "avatars/", "avatar_", DecimalString(studentId), DecimalString(now);
    assert '\0' !in d1 && '\0' !in d2;
    assert '\0' !in dir && '\0' !in prefix && '\0' !in "_";
    assert AvatarPath(studentId, now, ext) == dir + prefix + d1 + "_" + d2 + ext;
    NulOnlyInLastPart(dir, prefix, d1, "_", d2, ext);
  }

  /** A name `avatar_<digits>_<digits><extension>` splits back into its three parts. */
  lemma FileNameParts(d1: string, u1: string, e1: string, d2: string, u2: string, e2: string)
    requires forall i :: 0 <= i < |d1| ==> IsDigit(d1[i])
    requires forall i :: 0 <= i < |d2| ==> IsDigit(d2[i])
    requires forall i :: 0 <= i < |u1| ==> IsDigit(u1[i])
    requires forall i :: 0 <= i < |u2| ==> IsDigit(u2[i])
    requires IsExtension(e1) && IsExtension(e2)
    requires "avatar_" + d1 + "_" + u1 + e1 == "avatar_" + d2 + "_" + u2 + e2
    ensures d1 == d2 && u1 == u2 && e1 == e2
  {
    var t1, t2 := "_" + u1 + e1, "_" + u2 + e2;
    assert "avatar_" + d1 + "_" + u1 + e1 == "avatar_" + (d1 + t1);
    assert "avatar_" + d2 + "_" + u2 + e2 == "avatar_" + (d2 + t2);
    assert d1 + t1 == ("avatar_" + (d1 + t1))[7..] == ("avatar_" + (d2 + t2))[7..] == d2 + t2;
    DigitRunsAgree(d1, t1, d2, t2);
    assert u1 + e1 == t1[1..] == t2[1..] == u2 + e2;
    DigitRunsAgree(u1, e1, u2, e2);
  }

  /** The file name gives back the student id, the timestamp and the extension it was built from. */
  lemma AvatarFileNameInjective(s1: Id, t1: nat, e1: string, s2: Id, t2: nat, e2: string)
    requires IsExtension(e1) && IsExtension(e2)
    requires AvatarFileName(s1, t1, e1) == AvatarFileName(s2, t2, e2)
    ensures s1 == s2 && t1 == t2 && e1 == e2
  {
    FileNameParts(DecimalString(s1), DecimalString(t1), e1, DecimalString(s2), DecimalString(t2), e2);
    DecimalStringInjective(s1, s2);
    DecimalStringInjective(t1, t2);
  }

  /**
   * Uploads for one student whose clock values differ go to two different
   * files, whatever the two original file names. (Two uploads with the same
   * clock value and extension share a file, and the later one replaces it.)
   */
  lemma UploadsAtDistinctTimesUseDistinctPaths(fs: FileStore, studentId: Id, t1: nat, n1: Option<string>, t2: nat, n2: Option<string>)
    requires t1 != t2
    ensures fs.Absolute(AvatarPath(studentId, t1, GetFileExtension(n1))) !=
            fs.Absolute(AvatarPath(studentId, t2, GetFileExtension(n2)))
  {
    var p1, p2 := AvatarPath(studentId, t1, GetFileExtension(n1)), AvatarPath(studentId, t2, GetFileExtension(n2));
    if fs.Absolute(p1) == fs.Absolute(p2) {
      fs.AbsoluteInjective(p1, p2);
      var f1 := AvatarFileName(studentId, t1, GetFileExtension(n1));
      var f2 := AvatarFileName(studentId, t2, GetFileExtension(n2));
      assert f1 == p1[8..] == p2[8..] == f2;
      AvatarFileNameInjective(studentId, t1, GetFileExtension(n1), studentId, t2, GetFileExtension(n2));
    }
  }

  /** `a` is the one row of `rows` that belongs to student `studentId`. */
  ghost predicate IsOnlyAvatarOf(rows: map<Id, Avatar>, a: Avatar, studentId: Id) {
    && a.id.Some? && a.id.value in rows && rows[a.id.value] == a
    && a.student == Some(studentId)
    && forall k :: k in rows && rows[k].student == Some(studentId) ==> k == a.id.value
  }

  /** No student owns two avatar rows. */
  ghost predicate OneAvatarPerStudent(rows: map<Id, Avatar>) {
    forall j, k :: j in rows && k in rows && rows[j].student.Some? && rows[j].student == rows[k].student ==> j == k
  }

  /** The row's copy of the bytes is what its file holds, and its size is their length. */
  ghost predicate InSync(a: Avatar, files: map<string, seq<Byte>>) {
    && a.filePath.Some? && a.data.Some?
    && a.filePath.value in files
    && files[a.filePath.value] == a.data.value
    && a.fileSize == |a.data.value|
  }

  /** Writing the row under the only key a student may use makes it that student's only row. */
  lemma UpsertIsOnlyAvatar(rows: map<Id, Avatar>, k: Id, a: Avatar, studentId: Id)
    requires a.id == Some(k) && a.student == Some(studentId)
    requires forall j :: j in rows && rows[j].student == Some(studentId) ==> j == k
    ensures IsOnlyAvatarOf(rows[k := a], a, studentId)
  {
  }

  /** Writing the only row of a student keeps every student at one row at most. */
  lemma UpsertKeepsOneAvatarPerStudent(rows: map<Id, Avatar>, k: Id, a: Avatar, studentId: Id)
    requires OneAvatarPerStudent(rows)
    requires a.id == Some(k) && a.student == Some(studentId)
    requires forall j :: j in rows && rows[j].student == Some(studentId) ==> j == k
    ensures OneAvatarPerStudent(rows[k := a])
  {
  }

  class AvatarService {
    const avatarRepository: AvatarRepository
    const studentRepository: StudentRepository
    const fileStore: FileStore

    ghost predicate Valid()
      reads avatarRepository, studentRepository
    {
      avatarRepository.Valid() && studentRepository.Valid()
    }

    constructor (avatarRepository: AvatarRepository, studentRepository: StudentRepository, fileStore: FileStore)
      requires avatarRepository.Valid() && studentRepository.Valid()
      ensures this.avatarRepository == avatarRepository
      ensures this.studentRepository == studentRepository
      ensures this.fileStore == fileStore
      ensures Valid()
    {
      this.avatarRepository := avatarRepository;
      this.studentRepository := studentRepository;
      this.fileStore := fileStore;
    }

    /**
     * `findAvatarByStudentId`: empty when the student has no avatar row, the
     * row when it has exactly one, and an `IncorrectResultSize` failure when
     * it has several.
     */
    function FindAvatarByStudentId(studentId: Id): (r: Result<Option<Avatar>, Error>)
      reads avatarRepository
      requires avatarRepository.Valid()
      ensures r == Ok(None) <==>
                forall k :: k in avatarRepository.rows ==> avatarRepository.rows[k].student != Some(studentId)
      ensures r.Ok? && r.value.Some? ==> IsOnlyAvatarOf(avatarRepository.rows, r.value.value, studentId)
      ensures r.Err? <==>
                exists j, k :: j in avatarRepository.rows && k in avatarRepository.rows && j != k &&
                  avatarRepository.rows[j].student == Some(studentId) &&
                  avatarRepository.rows[k].student == Some(studentId)
      ensures r.Err? ==> r.error == IncorrectResultSize
    {
      avatarRepository.FindByStudentId(studentId)
    }

    /** `saveAvatar`: saves the row as the repository's `save` does. */
    method SaveAvatar(a: Avatar) returns (saved: Avatar)
      requires avatarRepository.Valid()
      modifies avatarRepository
      ensures avatarRepository.Valid()
      ensures saved.id.Some? && saved == a.(id := saved.id)
      ensures avatarRepository.rows == old(avatarRepository.rows)[saved.id.value := saved]
      ensures a.id.Some? && a.id.value in old(avatarRepository.rows) ==> saved == a
      ensures !(a.id.Some? && a.id.value in old(avatarRepository.rows)) ==>
                saved.id.value == old(avatarRepository.nextId) && saved.id.value !in old(avatarRepository.rows)
    {
      saved := avatarRepository.Save(a);
    }

    /**
     * `uploadAvatar`. An unknown student fails before anything else happens.
     * Otherwise the student's avatar row is reused if it has one (a new row
     * is created only if not), its fields are overwritten from the upload, the
     * bytes are written to `avatars/avatar_<student>_<now><extension>`, the
     * row records that file's absolute path, and the row is saved. A path
     * that `Path.of` rejects fails before the write, changing nothing. `now`
     * is the value of `System.currentTimeMillis()` during the call.
     */
    method UploadAvatar(studentId: Id, avatarFile: MultipartFile, now: nat) returns (result: Result<(), Error>)
      requires Valid()
      modifies avatarRepository, fileStore
      ensures Valid()
      ensures result.Ok? <==>
                && studentId in studentRepository.rows && old(FindAvatarByStudentId(studentId)).Ok?
                && !PathOfRejects(AvatarPath(studentId, now, GetFileExtension(avatarFile.originalFilename)))
      ensures studentId !in studentRepository.rows ==> result == Err(IllegalArgument("Student not found"))
      ensures studentId in studentRepository.rows && old(FindAvatarByStudentId(studentId)).Err? ==>
                result == Err(IncorrectResultSize)
      ensures studentId in studentRepository.rows && old(FindAvatarByStudentId(studentId)).Ok? ==>
                var path := AvatarPath(studentId, now, GetFileExtension(avatarFile.originalFilename));
                PathOfRejects(path) ==> result == Err(InvalidPath(path, "Nul character not allowed"))
      ensures result.Err? ==> unchanged(avatarRepository) && unchanged(fileStore)
      ensures result.Ok? ==>
                var path := fileStore.Absolute(AvatarPath(studentId, now, GetFileExtension(avatarFile.originalFilename)));
                var prior := old(FindAvatarByStudentId(studentId)).value;
                var k := if prior.Some? then prior.value.id.value else old(avatarRepository.nextId);
                && fileStore.files == old(fileStore.files)[path := avatarFile.bytes]
                && (prior.None? ==> k !in old(avatarRepository.rows))
                && avatarRepository.rows == old(avatarRepository.rows)[k := Avatar(
                     id := Some(k),
                     filePath := Some(path),
                     fileSize := avatarFile.Size(),
                     mediaType := avatarFile.contentType,
                     data := Some(avatarFile.bytes),
                     student := Some(studentId))]
                && IsOnlyAvatarOf(avatarRepository.rows, avatarRepository.rows[k], studentId)
                && InSync(avatarRepository.rows[k], fileStore.files)
      ensures result.Ok? && old(OneAvatarPerStudent(avatarRepository.rows)) ==>
                OneAvatarPerStudent(avatarRepository.rows)
    {
      var student := studentRepository.FindById(studentId);
      if student.None? {
        return Err(IllegalArgument("Student not found"));
      }
      var found := FindAvatarByStudentId(studentId);
      if found.Err? {
        return Err(found.error);
      }
      var avatar := if found.value.Some? then found.value.value else NewAvatar;
      ghost var before := avatarRepository.rows;
      ghost var k := if found.value.Some? then found.value.value.id.value else avatarRepository.nextId;
      assert forall j :: j in before && before[j].student == Some(studentId) ==> j == k;

      avatar := avatar.(student := student.value.id);
      avatar := avatar.(mediaType := avatarFile.contentType);
      avatar := avatar.(fileSize := avatarFile.Size());
      avatar := avatar.(data := Some(avatarFile.bytes));

      var filePath := AvatarPath(studentId, now, GetFileExtension(avatarFile.originalFilename));
      if PathOfRejects(filePath) {
        return Err(InvalidPath(filePath, "Nul character not allowed"));
      }
      fileStore.Write(filePath, avatarFile.bytes);
      avatar := avatar.(filePath := Some(fileStore.Absolute(filePath)));

      var saved := SaveAvatar(avatar);
      assert saved.id == Some(k) && saved.student == Some(studentId);
      UpsertIsOnlyAvatar(before, k, saved, studentId);
      if OneAvatarPerStudent(before) {
        UpsertKeepsOneAvatarPerStudent(before, k, saved, studentId);
      }
      result := Ok(());
    }
  }
}
