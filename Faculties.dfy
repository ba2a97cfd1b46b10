/** `FacultyService`: CRUD, searches and the longest-name query over the faculty table. */
module Faculties {
  import opened Wrappers
  import opened Tables
  import opened Entities
  import opened Repositories
  import opened Text

  /**
   * One step of `Stream.max(comparingInt(String::length))`: the longer of the
   * two by `String.length()`, the running maximum winning a tie.
   */
  function LongerOf(best: string, next: string): (r: string)
    ensures r == best || r == next
    ensures Utf16Length(best) <= Utf16Length(r) && Utf16Length(next) <= Utf16Length(r)
    ensures Utf16Length(best) == Utf16Length(next) ==> r == best
  {
    if Utf16Length(best) >= Utf16Length(next) then best else next
  }

  /** The reduction over `best` followed by `rest`, from the left: one of them, as long as any. */
  function LongestFrom(best: string, rest: seq<string>): (r: string)
    ensures r == best || r in rest
    ensures Utf16Length(best) <= Utf16Length(r)
    ensures forall x :: x in rest ==> Utf16Length(x) <= Utf16Length(r)
    decreases |rest|
  {
    if rest == [] then best
    else
      assert forall x :: x in rest ==> x == rest[0] || x in rest[1..];
      LongestFrom(LongerOf(best, rest[0]), rest[1..])
  }

  /**
   * The maximum by length, or `""` (`orElse("")`) when there are no names:
   * otherwise one of the names, and none is longer.
   */
  function LongestName(names: seq<string>): (r: string)
    ensures names == [] ==> r == ""
    ensures names != [] ==> r in names
    ensures forall x :: x in names ==> Utf16Length(x) <= Utf16Length(r)
  {
    if names == [] then ""
    else
      assert forall x :: x in names ==> x == names[0] || x in names[1..];
      LongestFrom(names[0], names[1..])
  }

  /** The lengths `String.length()` reports for each name. */
  ghost function Lengths(names: seq<string>): (ls: seq<nat>)
    ensures |ls| == |names|
    ensures forall i :: 0 <= i < |ls| ==> ls[i] == Utf16Length(names[i])
  {
    if names == [] then [] else [Utf16Length(names[0])] + Lengths(names[1..])
  }

  /** Position `i` holds a largest value, and every earlier value is strictly smaller. */
  ghost predicate FirstMaxAt(ls: seq<nat>, i: int) {
    && 0 <= i < |ls|
    && (forall j :: 0 <= j < |ls| ==> ls[j] <= ls[i])
    && (forall j :: 0 <= j < i ==> ls[j] < ls[i])
  }

  /** Position `i` holds a longest name, and every earlier name is strictly shorter. */
  ghost predicate FirstLongestAt(names: seq<string>, i: int) {
    FirstMaxAt(Lengths(names), i)
  }

  /** At most one position can be the first longest. */
  lemma FirstLongestIsUnique(names: seq<string>, i: int, j: int)
    requires FirstLongestAt(names, i) && FirstLongestAt(names, j)
    ensures i == j
  {
    var ls := Lengths(names);
    assert ls[j] <= ls[i] && ls[i] <= ls[j];
  }

  /**
   * One reduction step over lengths: if `m`, the larger of `a` and `b` with `a`
   * winning a tie, followed by `more` has its first maximum at `i`, then `a, b`
   * followed by `more` has it at the matching position.
   */
  lemma FirstMaxStep(a: nat, b: nat, m: nat, more: seq<nat>, i: int)
    requires m == (if a >= b then a else b)
    requires FirstMaxAt([m] + more, i)
    ensures FirstMaxAt([a, b] + more, if i > 0 then i + 1 else if a >= b then 0 else 1)
  {
    var tail := [m] + more;
    var all := [a, b] + more;
    assert forall j :: 2 <= j < |all| ==> all[j] == tail[j - 1];
    if i > 0 {
      assert tail[0] < tail[i];
      assert FirstMaxAt(all, i + 1);
    }
  }

  lemma LengthsCons(x: string, more: seq<string>)
    ensures Lengths([x] + more) == [Utf16Length(x)] + Lengths(more)
  {
    assert ([x] + more)[1..] == more;
  }

  /** The same step over names, through `LongerOf`. */
  lemma FirstLongestStep(x: string, y: string, more: seq<string>, i: int)
    requires FirstLongestAt([LongerOf(x, y)] + more, i)
    ensures FirstLongestAt([x, y] + more, if i > 0 then i + 1 else if Utf16Length(x) >= Utf16Length(y) then 0 else 1)
  {
    var b := LongerOf(x, y);
    var lx, ly, lb, ls := Utf16Length(x), Utf16Length(y), Utf16Length(b), Lengths(more);
    assert FirstMaxAt([lx, ly] + ls, if i > 0 then i + 1 else if lx >= ly then 0 else 1) by {
      assert lb == if lx >= ly then lx else ly;
      LengthsCons(b, more);
      FirstMaxStep(lx, ly, lb, ls, i);
    }
    assert Lengths([x, y] + more) == [lx, ly] + ls by {
      LengthsCons(y, more);
      LengthsCons(x, [y] + more);
      assert [x, y] + more == [x] + ([y] + more);
    }
  }

  /** The induction step: a first longest after one reduction step is a first longest before it. */
  lemma FirstLongestExtends(best: string, rest: seq<string>, i: int)
    requires rest != []
    requires FirstLongestAt([LongerOf(best, rest[0])] + rest[1..], i)
    ensures exists k :: FirstLongestAt([best] + rest, k) && ([best] + rest)[k] == ([LongerOf(best, rest[0])] + rest[1..])[i]
  {
    var k := if i > 0 then i + 1 else if Utf16Length(best) >= Utf16Length(rest[0]) then 0 else 1;
    assert [best] + rest == [best, rest[0]] + rest[1..];
    assert FirstLongestAt([best] + rest, k) by {
      FirstLongestStep(best, rest[0], rest[1..], i);
    }
    assert ([best] + rest)[k] == ([LongerOf(best, rest[0])] + rest[1..])[i] by {
      if i > 0 {
        assert ([LongerOf(best, rest[0])] + rest[1..])[i] == rest[i];
      }
    }
  }

  lemma {:induction false} LongestFromIsFirstLongest(best: string, rest: seq<string>)
    ensures exists i :: FirstLongestAt([best] + rest, i) && ([best] + rest)[i] == LongestFrom(best, rest)
    decreases |rest|
  {
    if rest == [] {
      assert FirstMaxAt(Lengths([best] + rest), 0);
    } else {
      var b := LongerOf(best, rest[0]);
      LongestFromIsFirstLongest(b, rest[1..]);
      var i :| FirstLongestAt([b] + rest[1..], i) && ([b] + rest[1..])[i] == LongestFrom(b, rest[1..]);
      FirstLongestExtends(best, rest, i);
    }
  }

  /**
   * The longest name is `""` for no names, and otherwise the first of the
   * names whose length is the largest.
   */
  lemma LongestNameIsFirstLongest(names: seq<string>)
    ensures names == [] ==> LongestName(names) == ""
    ensures names != [] ==> exists i :: FirstLongestAt(names, i) && names[i] == LongestName(names)
  {
    if names != [] {
      assert names == [names[0]] + names[1..];
      LongestFromIsFirstLongest(names[0], names[1..]);
    }
  }

  /**
   * Lengths are counted in UTF-16 code units: five characters from outside
   * the Basic Multilingual Plane outweigh nine ASCII letters.
   */
  lemma LongestNameCountsCodeUnits()
    ensures LongestName(["Slytherin", "\U{1F40D}\U{1F40D}\U{1F40D}\U{1F40D}\U{1F40D}"])
              == "\U{1F40D}\U{1F40D}\U{1F40D}\U{1F40D}\U{1F40D}"
  {
    var snakes := "\U{1F40D}\U{1F40D}\U{1F40D}\U{1F40D}\U{1F40D}";
    assert Supplementary(snakes) == {0, 1, 2, 3, 4};
    assert Supplementary("Slytherin") == {};
  }

  /** `.map(Faculty::getName)`. */
  function Names(faculties: seq<Faculty>): (names: seq<string>)
    ensures forall f :: f in faculties ==> f.name in names
    ensures forall x :: x in names ==> exists f :: f in faculties && f.name == x
  {
    var names := seq(|faculties|, i requires 0 <= i < |faculties| => faculties[i].name);
    assert forall i :: 0 <= i < |faculties| ==> names[i] == faculties[i].name;
    names
  }

  class FacultyService {
    const facultyRepository: FacultyRepository
    /** Read only to follow a faculty's students (`Faculty.getStudents()`). */
    const studentRepository: StudentRepository

    ghost predicate Valid()
      reads facultyRepository, studentRepository
    {
      facultyRepository.Valid() && studentRepository.Valid()
    }

    constructor (facultyRepository: FacultyRepository, studentRepository: StudentRepository)
      requires facultyRepository.Valid() && studentRepository.Valid()
      ensures this.facultyRepository == facultyRepository
      ensures this.studentRepository == studentRepository
      ensures Valid()
    {
      this.facultyRepository := facultyRepository;
      this.studentRepository := studentRepository;
    }

    /** `createFaculty`: saves the faculty, after which `findFaculty` of its id returns it. */
    method CreateFaculty(f: Faculty) returns (saved: Faculty)
      requires Valid()
      modifies facultyRepository
      ensures Valid()
      ensures saved.id.Some? && saved == f.(id := saved.id)
      ensures facultyRepository.rows == old(facultyRepository.rows)[saved.id.value := saved]
      ensures f.id.Some? && f.id.value in old(facultyRepository.rows) ==> saved == f
      ensures !(f.id.Some? && f.id.value in old(facultyRepository.rows)) ==>
                saved.id.value !in old(facultyRepository.rows)
      ensures FindFaculty(saved.id) == Some(saved)
    {
      saved := facultyRepository.Save(f);
    }

    /** `findFaculty`: null for a null or unknown id, else the stored faculty. */
    function FindFaculty(id: Option<Id>): (r: Option<Faculty>)
      reads facultyRepository
      requires facultyRepository.Valid()
      ensures r.None? <==> id.None? || id.value !in facultyRepository.rows
      ensures r.Some? ==> r.value == facultyRepository.rows[id.value] && r.value.id == id
    {
      if id.None? || !facultyRepository.ExistsById(id.value) then None
      else facultyRepository.FindById(id.value)
    }

    /**
     * `editFaculty`: a faculty whose id is null or unknown is refused with
     * null and nothing changes; otherwise its row is replaced and it is returned.
     */
    method EditFaculty(f: Faculty) returns (r: Option<Faculty>)
      requires Valid()
      modifies facultyRepository
      ensures Valid()
      ensures r.None? <==> f.id.None? || f.id.value !in old(facultyRepository.rows)
      ensures r.None? ==> unchanged(facultyRepository)
      ensures r.Some? ==> r.value == f
      ensures r.Some? ==> facultyRepository.rows == old(facultyRepository.rows)[f.id.value := f]
    {
      if f.id.None? || !facultyRepository.ExistsById(f.id.value) {
        return None;
      }
      var saved := facultyRepository.Save(f);
      r := Some(saved);
    }

    /** `deleteFaculty`: the row is gone, so a later `findFaculty` of it returns null. */
    method DeleteFaculty(id: Id)
      requires Valid()
      modifies facultyRepository
      ensures Valid()
      ensures facultyRepository.rows == old(facultyRepository.rows) - {id}
      ensures FindFaculty(Some(id)) == None
    {
      facultyRepository.DeleteById(id);
    }

    /** `getFacultiesByColor`: exactly the faculties of that colour. */
    function GetFacultiesByColor(color: string): (r: seq<Faculty>)
      reads facultyRepository
      requires facultyRepository.Valid()
      ensures forall f :: f in r <==> f in facultyRepository.rows.Values && f.color == color
      ensures forall i, j :: 0 <= i < j < |r| ==> r[i] != r[j]
    {
      SelectMembers(facultyRepository.rows, facultyRepository.nextId, (f: Faculty) => f.color == color,
        (f: Faculty) => f.id);
      facultyRepository.FindByColor(color)
    }

    /** `getAllFaculties`: every stored faculty. */
    function GetAllFaculties(): (r: seq<Faculty>)
      reads facultyRepository
      requires facultyRepository.Valid()
      ensures forall f :: f in r <==> f in facultyRepository.rows.Values
      ensures forall i, j :: 0 <= i < j < |r| ==> r[i] != r[j]
    {
      SelectMembers(facultyRepository.rows, facultyRepository.nextId, (f: Faculty) => true, (f: Faculty) => f.id);
      facultyRepository.FindAll()
    }

    /** `findFacultiesByNameOrColor`: faculties whose name or colour contains the query, ignoring case. */
    function FindFacultiesByNameOrColor(nameOrColor: string): (r: seq<Faculty>)
      reads facultyRepository
      requires facultyRepository.Valid()
      ensures forall f :: f in r <==> f in facultyRepository.rows.Values && MatchesNameOrColor(f, nameOrColor, nameOrColor)
      ensures forall i, j :: 0 <= i < j < |r| ==> r[i] != r[j]
    {
      SelectMembers(facultyRepository.rows, facultyRepository.nextId,
        (f: Faculty) => MatchesNameOrColor(f, nameOrColor, nameOrColor), (f: Faculty) => f.id);
      facultyRepository.FindByNameOrColorContainingIgnoreCase(nameOrColor, nameOrColor)
    }

    /** `getFacultyStudents`: the faculty's students, or the empty list for an unknown faculty. */
    function GetFacultyStudents(facultyId: Id): (r: seq<Student>)
      reads facultyRepository, studentRepository
      requires Valid()
      ensures facultyId !in facultyRepository.rows ==> r == []
      ensures facultyId in facultyRepository.rows ==>
                forall s :: s in r <==> s in studentRepository.rows.Values && s.faculty == Some(facultyId)
      ensures forall i, j :: 0 <= i < j < |r| ==> r[i] != r[j]
    {
      match facultyRepository.FindById(facultyId)
      case None => []
      case Some(f) =>
        SelectMembers(studentRepository.rows, studentRepository.nextId,
          (s: Student) => s.faculty == Some(facultyId), (s: Student) => s.id);
        studentRepository.FindByFaculty(facultyId)
    }

    /**
     * `getLongestFacultyName`: `""` when there are no faculties; otherwise a
     * stored name at least as long as every stored name, the first such one
     * in `findAll` order.
     */
    function GetLongestFacultyName(): (r: string)
      reads facultyRepository
      requires facultyRepository.Valid()
      ensures facultyRepository.rows == map[] ==> r == ""
      ensures facultyRepository.rows != map[] ==> exists k :: k in facultyRepository.rows && facultyRepository.rows[k].name == r
      ensures forall k :: k in facultyRepository.rows ==> Utf16Length(facultyRepository.rows[k].name) <= Utf16Length(r)
      ensures var names := Names(facultyRepository.FindAll());
                names != [] ==> exists i :: FirstLongestAt(names, i) && names[i] == r
    {
      var rows := facultyRepository.rows;
      var names := Names(facultyRepository.FindAll());
      var r := LongestName(names);
      assert names != [] ==> exists i :: FirstLongestAt(names, i) && names[i] == r by {
        LongestNameIsFirstLongest(names);
      }
      assert && (rows == map[] ==> r == "")
             && (rows != map[] ==> exists k :: k in rows && rows[k].name == r)
             && (forall k :: k in rows ==> Utf16Length(rows[k].name) <= Utf16Length(r)) by {
        SelectMembers(rows, facultyRepository.nextId, (f: Faculty) => true, (f: Faculty) => f.id);
      }
      r
    }
  }

  /** Every exact colour match is also a hit of the name-or-colour search for that colour. */
  lemma ColorMatchesAreSearchHits(svc: FacultyService, color: string)
    requires svc.facultyRepository.Valid()
    ensures forall f :: f in svc.GetFacultiesByColor(color) ==> f in svc.FindFacultiesByNameOrColor(color)
  {
  }

  /** The empty query matches every faculty, in `findAll` order. */
  lemma EmptySearchFindsAll(svc: FacultyService)
    requires svc.facultyRepository.Valid()
    ensures svc.FindFacultiesByNameOrColor("") == svc.GetAllFaculties()
  {
    var repo := svc.facultyRepository;
    forall k | k in repo.rows ensures MatchesNameOrColor(repo.rows[k], "", "") {
      ContainsIgnoreCaseBasics(repo.rows[k].name);
    }
    SelectAgrees(repo.rows, repo.nextId,
      (f: Faculty) => MatchesNameOrColor(f, "", ""),
      (f: Faculty) => true);
  }
}
