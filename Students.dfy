/** `StudentService`: CRUD and age queries over the student table. */
module Students {
  import opened Wrappers
  import opened Tables
  import opened Entities
  import opened Repositories

  class StudentService {
    const studentRepository: StudentRepository
    /** Read only to follow a student's faculty reference (`Student.getFaculty()`). */
    const facultyRepository: FacultyRepository

    ghost predicate Valid()
      reads studentRepository, facultyRepository
    {
      studentRepository.Valid() && facultyRepository.Valid()
    }

    constructor (studentRepository: StudentRepository, facultyRepository: FacultyRepository)
      requires studentRepository.Valid() && facultyRepository.Valid()
      ensures this.studentRepository == studentRepository
      ensures this.facultyRepository == facultyRepository
      ensures Valid()
    {
      this.studentRepository := studentRepository;
      this.facultyRepository := facultyRepository;
    }

    /**
     * `createStudent`: saves the student. A student without an id, or with one
     * the table does not hold, gets a fresh generated id; a known id is overwritten.
     */
    method CreateStudent(s: Student) returns (saved: Student)
      requires Valid()
      modifies studentRepository
      ensures Valid()
      ensures saved.id.Some? && saved == s.(id := saved.id)
      ensures studentRepository.rows == old(studentRepository.rows)[saved.id.value := saved]
      ensures s.id.Some? && s.id.value in old(studentRepository.rows) ==> saved == s
      ensures !(s.id.Some? && s.id.value in old(studentRepository.rows)) ==>
                saved.id.value !in old(studentRepository.rows)
      ensures FindStudent(saved.id.value) == Ok(saved)
    {
      saved := studentRepository.Save(s);
    }

    /** `findStudent`: the stored student, or `NoSuchElementException` from `Optional.get()`. */
    function FindStudent(id: Id): (r: Result<Student, Error>)
      reads studentRepository
      requires studentRepository.Valid()
      ensures r.Ok? <==> id in studentRepository.rows
      ensures r.Ok? ==> r.value == studentRepository.rows[id] && r.value.id == Some(id)
      ensures r.Err? ==> r.error == NoSuchElement
    {
      match studentRepository.FindById(id)
      case Some(s) => Ok(s)
      case None => Err(NoSuchElement)
    }

    /**
     * `editStudent`: saves unconditionally. Unlike `editFaculty` there is no
     * existence check, so an unknown id is inserted as a new row rather than refused.
     */
    method EditStudent(s: Student) returns (saved: Student)
      requires Valid()
      modifies studentRepository
      ensures Valid()
      ensures saved.id.Some? && saved == s.(id := saved.id)
      ensures studentRepository.rows == old(studentRepository.rows)[saved.id.value := saved]
      ensures s.id.Some? && s.id.value in old(studentRepository.rows) ==> saved == s
      ensures !(s.id.Some? && s.id.value in old(studentRepository.rows)) ==>
                saved.id.value !in old(studentRepository.rows)
    {
      saved := studentRepository.Save(s);
    }

    /** `deleteStudent`: the row is gone, so a later `findStudent` of it throws. */
    method DeleteStudent(id: Id)
      requires Valid()
      modifies studentRepository
      ensures Valid()
      ensures studentRepository.rows == old(studentRepository.rows) - {id}
      ensures FindStudent(id) == Err(NoSuchElement)
    {
      studentRepository.DeleteById(id);
    }

    /** `getAllStudents`: every stored student. */
    function GetAllStudents(): (r: seq<Student>)
      reads studentRepository
      requires studentRepository.Valid()
      ensures forall s :: s in r <==> s in studentRepository.rows.Values
      ensures forall i, j :: 0 <= i < j < |r| ==> r[i] != r[j]
    {
      SelectMembers(studentRepository.rows, studentRepository.nextId, (s: Student) => true, (s: Student) => s.id);
      studentRepository.FindAll()
    }

    /** `getStudentsByAge`: all students when `age` is null, else those of exactly that age. */
    function GetStudentsByAge(age: Option<int>): (r: seq<Student>)
      reads studentRepository
      requires studentRepository.Valid()
      ensures age.None? ==> r == GetAllStudents()
      ensures age.Some? ==> forall s :: s in r <==> s in studentRepository.rows.Values && s.age == age.value
      ensures forall i, j :: 0 <= i < j < |r| ==> r[i] != r[j]
    {
      if age.None? then
        SelectMembers(studentRepository.rows, studentRepository.nextId, (s: Student) => true, (s: Student) => s.id);
        studentRepository.FindAll()
      else
        SelectMembers(studentRepository.rows, studentRepository.nextId, (s: Student) => s.age == age.value,
          (s: Student) => s.id);
        studentRepository.FindByAge(age.value)
    }

    /** `getStudentsByAgeBetween`: the students with `min <= age <= max`. */
    function GetStudentsByAgeBetween(min: int, max: int): (r: seq<Student>)
      reads studentRepository
      requires studentRepository.Valid()
      ensures forall s :: s in r <==> s in studentRepository.rows.Values && min <= s.age <= max
      ensures forall i, j :: 0 <= i < j < |r| ==> r[i] != r[j]
    {
      SelectMembers(studentRepository.rows, studentRepository.nextId, (s: Student) => min <= s.age <= max,
        (s: Student) => s.id);
      studentRepository.FindByAgeBetween(min, max)
    }

    /**
     * `getStudentFaculty`: the faculty the student refers to. A missing
     * student makes `findStudent` throw, so the null branch of the source is
     * reached only by a student without a faculty.
     */
    function GetStudentFaculty(studentId: Id): (r: Result<Option<Faculty>, Error>)
      reads studentRepository, facultyRepository
      requires Valid()
      ensures r.Err? <==> studentId !in studentRepository.rows
      ensures r.Err? ==> r.error == NoSuchElement
      ensures r.Ok? && r.value.Some? <==>
                studentId in studentRepository.rows &&
                studentRepository.rows[studentId].faculty.Some? &&
                studentRepository.rows[studentId].faculty.value in facultyRepository.rows
      ensures r.Ok? && r.value.Some? ==>
                r.value.value.id == studentRepository.rows[studentId].faculty &&
                r.value.value in facultyRepository.rows.Values
    {
      match FindStudent(studentId)
      case Err(e) => Err(e)
      case Ok(student) =>
        Ok(if student.faculty.Some? then facultyRepository.FindById(student.faculty.value) else None)
    }
  }

  /** A range whose bounds coincide asks the same question as the exact-age query. */
  lemma AgeBetweenSameBoundIsAge(svc: StudentService, age: int)
    requires svc.Valid()
    ensures svc.GetStudentsByAgeBetween(age, age) == svc.GetStudentsByAge(Some(age))
  {
    var repo := svc.studentRepository;
    SelectAgrees(repo.rows, repo.nextId,
      (s: Student) => age <= s.age <= age, (s: Student) => s.age == age);
  }
}
