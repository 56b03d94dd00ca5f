/**
 * `addStudent`, `updateStudent` and `deleteStudent` of utils.js. Each one
 * validates, loads, checks the collection, changes it, saves, and returns a
 * result record. Exceptions the source catches (a failed load makes `.some`
 * or `.findIndex` throw on `undefined`; a failed save rethrows) become the
 * operation's generic error result.
 */
module StudentService {
  import opened Wrappers
  import opened DateFormat
  import opened Students
  import opened StudentStore

  datatype Status = Success | Error

  /**
   * The record every operation returns: `students` only on success,
   * `student` only on the duplicate-name failure of an update.
   */
  datatype OpResult = OpResult(status: Status, message: string, students: Option<seq<ShownStudent>>, student: Option<Student>)

  const AllFieldsRequired: string := "Tous les champs sont obligatoires"
  const AlreadyExists: string := "Un étudiant avec ce nom existe déjà"
  const NotFound: string := "Étudiant non trouvé"
  const Added: string := "Étudiant ajouté avec succès"
  const AddFailed: string := "Erreur lors de l'ajout de l'étudiant"
  const Updated: string := "Étudiant mis à jour avec succès"
  const UpdateFailed: string := "Erreur lors de la mise à jour de l'étudiant"
  const Deleted: string := "Étudiant supprimé avec succès"
  const DeleteFailed: string := "Erreur lors de la suppression de l'étudiant"

  /** An error result carrying only a message. */
  function Failure(message: string): OpResult
  {
    OpResult(Error, message, None, None)
  }

  /** A success result carrying the saved collection with display dates. */
  function Succeeded(message: string, lib: DateLib, saved: seq<Student>): OpResult
  {
    OpResult(Success, message, Some(Present(lib, saved)), None)
  }

  /** A required field is missing: the source's `!name || !birth` (an absent field reaches here as ""). */
  predicate Missing(name: string, birth: string)
  {
    name == "" || birth == ""
  }

  /** addStudent(name, birth) */
  method AddStudent(store: Store, lib: DateLib, name: string, birth: string) returns (r: OpResult)
    modifies store`file, store`trace
    ensures Missing(name, birth) ==>
      r == Failure(AllFieldsRequired) && store.file == old(store.file) && store.trace == old(store.trace)
    ensures !Missing(name, birth) && old(store.file).None? ==>
      r == Failure(AddFailed) && store.file == old(store.file) && store.trace == old(store.trace) + [Read]
    ensures !Missing(name, birth) && old(store.file).Some? && HasName(old(store.file).value, name) ==>
      r == Failure(AlreadyExists) && store.file == old(store.file) && store.trace == old(store.trace) + [Read]
    ensures !Missing(name, birth) && old(store.file).Some? && !HasName(old(store.file).value, name) ==>
      var added := old(store.file).value + [Student(name, birth)];
      && store.trace == old(store.trace) + [Read, Write(added)]
      && (store.writable ==> r == Succeeded(Added, lib, added) && store.file == Some(added))
      && (!store.writable ==> r == Failure(AddFailed) && store.file == old(store.file))
    ensures old(store.file).Some? && UniqueNames(old(store.file).value) ==>
      store.file.Some? && UniqueNames(store.file.value)
    ensures r.status == Success <==> r.students.Some?
    ensures r.status == Success ==> store.file == Some(Stored(r.students.value))
  {
    if Missing(name, birth) {
      return Failure(AllFieldsRequired);
    }
    var loaded := store.Load();
    if loaded.None? {
      return Failure(AddFailed);
    }
    var students := loaded.value;
    if HasName(students, name) {
      return Failure(AlreadyExists);
    }
    ghost var before := students;
    students := students + [Student(name, birth)];
    var saved := store.Save(students);
    if !saved {
      return Failure(AddFailed);
    }
    if UniqueNames(before) {
      AppendKeepsUnique(before, Student(name, birth));
    }
    StoredPresent(lib, students);
    r := Succeeded(Added, lib, students);
  }

  /** updateStudent(originalName, name, birth) */
  method UpdateStudent(store: Store, lib: DateLib, originalName: string, name: string, birth: string) returns (r: OpResult)
    modifies store`file, store`trace
    ensures Missing(name, birth) ==>
      r == Failure(AllFieldsRequired) && store.file == old(store.file) && store.trace == old(store.trace)
    ensures !Missing(name, birth) && old(store.file).None? ==>
      r == Failure(UpdateFailed) && store.file == old(store.file) && store.trace == old(store.trace) + [Read]
    ensures !Missing(name, birth) && old(store.file).Some? && !HasName(old(store.file).value, originalName) ==>
      r == Failure(NotFound) && store.file == old(store.file) && store.trace == old(store.trace) + [Read]
    ensures !Missing(name, birth) && old(store.file).Some? && HasName(old(store.file).value, originalName)
            && name != originalName && HasName(old(store.file).value, name) ==>
      && r == OpResult(Error, AlreadyExists, None, Some(Student(originalName, birth)))
      && store.file == old(store.file) && store.trace == old(store.trace) + [Read]
    ensures !Missing(name, birth) && old(store.file).Some? && HasName(old(store.file).value, originalName)
            && (name == originalName || !HasName(old(store.file).value, name)) ==>
      var updated := old(store.file).value[FindIndex(old(store.file).value, originalName) := Student(name, birth)];
      && store.trace == old(store.trace) + [Read, Write(updated)]
      && (store.writable ==> r == Succeeded(Updated, lib, updated) && store.file == Some(updated))
      && (!store.writable ==> r == Failure(UpdateFailed) && store.file == old(store.file))
    ensures old(store.file).Some? && UniqueNames(old(store.file).value) ==>
      store.file.Some? && UniqueNames(store.file.value)
    ensures r.status == Success <==> r.students.Some?
    ensures r.status == Success ==> store.file == Some(Stored(r.students.value))
  {
    if Missing(name, birth) {
      return Failure(AllFieldsRequired);
    }
    var loaded := store.Load();
    if loaded.None? {
      return Failure(UpdateFailed);
    }
    var students := loaded.value;
    var studentIndex := FindIndex(students, originalName);
    if studentIndex == -1 {
      return Failure(NotFound);
    }
    if name != originalName && HasName(students, name) {
      return OpResult(Error, AlreadyExists, None, Some(Student(originalName, birth)));
    }
    ghost var before := students;
    students := students[studentIndex := Student(name, birth)];
    var saved := store.Save(students);
    if !saved {
      return Failure(UpdateFailed);
    }
    if UniqueNames(before) {
      ReplaceKeepsUnique(before, studentIndex, Student(name, birth));
    }
    StoredPresent(lib, students);
    r := Succeeded(Updated, lib, students);
  }

  /** deleteStudent(name): a name nobody has is reported as not found and nothing is saved. */
  method DeleteStudent(store: Store, lib: DateLib, name: string) returns (r: OpResult)
    modifies store`file, store`trace
    ensures old(store.file).None? ==>
      r == Failure(DeleteFailed) && store.file == old(store.file) && store.trace == old(store.trace) + [Read]
    ensures old(store.file).Some? && !HasName(old(store.file).value, name) ==>
      r == Failure(NotFound) && store.file == old(store.file) && store.trace == old(store.trace) + [Read]
    ensures old(store.file).Some? && HasName(old(store.file).value, name) ==>
      var remaining := Without(old(store.file).value, name);
      && store.trace == old(store.trace) + [Read, Write(remaining)]
      && (store.writable ==> r == Succeeded(Deleted, lib, remaining) && store.file == Some(remaining))
      && (!store.writable ==> r == Failure(DeleteFailed) && store.file == old(store.file))
    ensures old(store.file).Some? && UniqueNames(old(store.file).value) ==>
      store.file.Some? && UniqueNames(store.file.value)
    ensures r.status == Success <==> r.students.Some?
    ensures r.status == Success ==> store.file == Some(Stored(r.students.value))
  {
    var loaded := store.Load();
    if loaded.None? {
      return Failure(DeleteFailed);
    }
    var students := loaded.value;
    if !HasName(students, name) {
      return Failure(NotFound);
    }
    ghost var before := students;
    students := Without(students, name);
    var saved := store.Save(students);
    if !saved {
      return Failure(DeleteFailed);
    }
    if UniqueNames(before) {
      WithoutKeepsUnique(before, name);
    }
    StoredPresent(lib, students);
    r := Succeeded(Deleted, lib, students);
  }

  /**
   * A client of the three operations. With the data file missing, the first
   * add fails; the client then supplies an empty file, after which an add, a
   * rename and a delete leave an empty collection behind.
   */
  method Walkthrough(lib: DateLib)
  {
    var store := new Store(None, true);
    var r := AddStudent(store, lib, "Alice", "2000-01-15");
    assert r.status == Error && store.file == None;
    store.file := Some([]);
    assert !HasName([], "Alice") && [] + [Student("Alice", "2000-01-15")] == [Student("Alice", "2000-01-15")];
    r := AddStudent(store, lib, "Alice", "2000-01-15");
    assert r.status == Success && store.file == Some([Student("Alice", "2000-01-15")]);
    r := AddStudent(store, lib, "Alice", "1999-12-31");
    assert r.message == AlreadyExists && store.file == Some([Student("Alice", "2000-01-15")]);
    r := UpdateStudent(store, lib, "Alice", "Alicia", "2000-01-15");
    assert r.status == Success && store.file == Some([Student("Alicia", "2000-01-15")]);
    r := DeleteStudent(store, lib, "Alice");
    assert r.message == NotFound;
    r := DeleteStudent(store, lib, "Alicia");
    assert r.status == Success && store.file == Some([]);
  }
}
