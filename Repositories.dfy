/**
 * The Spring Data repositories the services call, each a table held in a
 * map with an identity generator, and the file system as a map from absolute
 * paths to file contents.
 */
module Repositories {
  import opened Wrappers
  import opened Tables
  import opened Entities
  import Text

  class StudentRepository {
    var rows: map<Id, Student>
    var nextId: Id

    /** Every row is stored under its own id, and the generator is past every id. */
    ghost predicate Valid()
      reads this
    {
      forall k :: k in rows ==> k < nextId && rows[k].id == Some(k)
    }

    constructor ()
      ensures Valid() && rows == map[]
    {
      rows, nextId := map[], 1;
    }

    function FindById(id: Id): Option<Student>
      reads this
    {
      if id in rows then Some(rows[id]) else None
    }

    function FindAll(): seq<Student>
      reads this
    {
      Select(rows, nextId, (s: Student) => true)
    }

    function FindByAge(age: int): seq<Student>
      reads this
    {
      Select(rows, nextId, (s: Student) => s.age == age)
    }

    /** `age BETWEEN min AND max`: both bounds inclusive. */
    function FindByAgeBetween(min: int, max: int): seq<Student>
      reads this
    {
      Select(rows, nextId, (s: Student) => min <= s.age <= max)
    }

    /** The students whose faculty reference is `facultyId`. */
    function FindByFaculty(facultyId: Id): seq<Student>
      reads this
    {
      Select(rows, nextId, (s: Student) => s.faculty == Some(facultyId))
    }

    method Save(s: Student) returns (saved: Student)
      requires Valid()
      modifies this
      ensures Valid()
      ensures saved == s.(id := Some(SaveKey(s.id, old(rows), old(nextId))))
      ensures rows == old(rows)[saved.id.value := saved]
      ensures nextId == if saved.id.value in old(rows) then old(nextId) else old(nextId) + 1
    {
      var k := SaveKey(s.id, rows, nextId);
      saved := s.(id := Some(k));
      if k == nextId {
        nextId := nextId + 1;
      }
      rows := rows[k := saved];
    }

    /** Removes the row if there is one; a missing id is ignored. */
    method DeleteById(id: Id)
      requires Valid()
      modifies this
      ensures Valid()
      ensures rows == old(rows) - {id} && nextId == old(nextId)
    {
      rows := rows - {id};
    }
  }

  /** The derived-query filter: the name contains `name` or the colour contains `color`, ignoring case. */
  predicate MatchesNameOrColor(f: Faculty, name: string, color: string) {
    Text.ContainsIgnoreCase(f.name, name) || Text.ContainsIgnoreCase(f.color, color)
  }

  class FacultyRepository {
    var rows: map<Id, Faculty>
    var nextId: Id

    /** Every row is stored under its own id, and the generator is past every id. */
    ghost predicate Valid()
      reads this
    {
      forall k :: k in rows ==> k < nextId && rows[k].id == Some(k)
    }

    constructor ()
      ensures Valid() && rows == map[]
    {
      rows, nextId := map[], 1;
    }

    function ExistsById(id: Id): bool
      reads this
    {
      id in rows
    }

    function FindById(id: Id): Option<Faculty>
      reads this
    {
      if id in rows then Some(rows[id]) else None
    }

    function FindAll(): seq<Faculty>
      reads this
    {
      Select(rows, nextId, (f: Faculty) => true)
    }

    function FindByColor(color: string): seq<Faculty>
      reads this
    {
      Select(rows, nextId, (f: Faculty) => f.color == color)
    }

    /** `findByNameContainingIgnoreCaseOrColorContainingIgnoreCase(name, color)`. */
    function FindByNameOrColorContainingIgnoreCase(name: string, color: string): seq<Faculty>
      reads this
    {
      Select(rows, nextId, (f: Faculty) => MatchesNameOrColor(f, name, color))
    }

    method Save(f: Faculty) returns (saved: Faculty)
      requires Valid()
      modifies this
      ensures Valid()
      ensures saved == f.(id := Some(SaveKey(f.id, old(rows), old(nextId))))
      ensures rows == old(rows)[saved.id.value := saved]
      ensures nextId == if saved.id.value in old(rows) then old(nextId) else old(nextId) + 1
    {
      var k := SaveKey(f.id, rows, nextId);
      saved := f.(id := Some(k));
      if k == nextId {
        nextId := nextId + 1;
      }
      rows := rows[k := saved];
    }

    /** Removes the row if there is one; a missing id is ignored. */
    method DeleteById(id: Id)
      requires Valid()
      modifies this
      ensures Valid()
      ensures rows == old(rows) - {id} && nextId == old(nextId)
    {
      rows := rows - {id};
    }
  }

  class AvatarRepository {
    var rows: map<Id, Avatar>
    var nextId: Id

    /** Every row is stored under its own id, and the generator is past every id. */
    ghost predicate Valid()
      reads this
    {
      forall k :: k in rows ==> k < nextId && rows[k].id == Some(k)
    }

    constructor ()
      ensures Valid() && rows == map[]
    {
      rows, nextId := map[], 1;
    }

    /**
     * `findByStudentId`, a query returning `Optional<Avatar>`: no match is
     * empty, one match is returned, several matches make it throw.
     */
    function FindByStudentId(studentId: Id): (r: Result<Option<Avatar>, Error>)
      reads this
      ensures r == Ok(None) <==> forall k :: k in rows && k < nextId ==> rows[k].student != Some(studentId)
      ensures r.Ok? && r.value.Some? ==>
                exists k :: k in rows && k < nextId && rows[k] == r.value.value && rows[k].student == Some(studentId) &&
                  forall j :: j in rows && j < nextId && rows[j].student == Some(studentId) ==> j == k
      ensures r.Err? <==>
                exists j, k :: j in rows && k in rows && j < k < nextId &&
                  rows[j].student == Some(studentId) && rows[k].student == Some(studentId)
      ensures r.Err? ==> r.error == IncorrectResultSize
    {
      var ks := KeysWhere(rows, nextId, (a: Avatar) => a.student == Some(studentId));
      KeysWhereCount(rows, nextId, (a: Avatar) => a.student == Some(studentId));
      if |ks| == 0 then Ok(None)
      else if |ks| == 1 then Ok(Some(rows[ks[0]]))
      else Err(IncorrectResultSize)
    }

    method Save(a: Avatar) returns (saved: Avatar)
      requires Valid()
      modifies this
      ensures Valid()
      ensures saved == a.(id := Some(SaveKey(a.id, old(rows), old(nextId))))
      ensures rows == old(rows)[saved.id.value := saved]
      ensures nextId == if saved.id.value in old(rows) then old(nextId) else old(nextId) + 1
    {
      var k := SaveKey(a.id, rows, nextId);
      saved := a.(id := Some(k));
      if k == nextId {
        nextId := nextId + 1;
      }
      rows := rows[k := saved];
    }
  }

  /** The file system: file contents by absolute path, relative paths resolved against `cwd`. */
  class FileStore {
    const cwd: string
    var files: map<string, seq<Byte>>

    constructor (cwd: string)
      ensures this.cwd == cwd && files == map[]
    {
      this.cwd := cwd;
      files := map[];
    }

    /**
     * `Path.toAbsolutePath()` of a relative path: the working directory, one
     * `/` (the directory's own trailing one if it has it), then the path.
     */
    function Absolute(path: string): (p: string)
      ensures |p| > |path| && p[|p| - |path|..] == path && p[|p| - |path| - 1] == '/'
      ensures |cwd| <= |p| && p[..|cwd|] == cwd
      ensures |p| - |path| - 1 <= |cwd| <= |p| - |path|
    {
      var p := if |cwd| > 0 && cwd[|cwd| - 1] == '/' then cwd + path else cwd + "/" + path;
      assert p[|p| - |path|..] == path;
      p
    }

    /** Two relative paths that resolve to the same absolute path are the same path. */
    lemma AbsoluteInjective(path1: string, path2: string)
      requires Absolute(path1) == Absolute(path2)
      ensures path1 == path2
    {
      var c := if |cwd| > 0 && cwd[|cwd| - 1] == '/' then |cwd| else |cwd| + 1;
      assert path1 == Absolute(path1)[c..] == Absolute(path2)[c..] == path2;
    }

    /** `Files.write`: creates or replaces the one file at `path`; parent directories are implicit. */
    method Write(path: string, bytes: seq<Byte>)
      modifies this
      ensures files == old(files)[Absolute(path) := bytes]
    {
      files := files[Absolute(path) := bytes];
    }
  }
}
