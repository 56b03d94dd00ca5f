/**
 * `getStudents` and `saveStudents` of utils.js as an abstract store.
 *
 * The data file is modelled by what it parses to: `Some(students)` when it
 * exists and holds a JSON array of records, `None` when it is missing or does
 * not parse (the source logs that and returns `undefined`). Whether writing
 * succeeds is a property of the environment, `writable`. A ghost `trace`
 * records every load and every attempted save, so that contracts can say an
 * operation saved nothing, or did not even load.
 */
module StudentStore {
  import opened Wrappers
  import opened Students

  /** One access to the data file. */
  datatype Access = Read | Write(students: seq<Student>)

  class Store {
    /** What the data file parses to, `None` if it is missing or not valid JSON. */
    var file: Option<seq<Student>>
    /** Whether creating the data directory and writing the file succeed. */
    var writable: bool
    /** Every load and attempted save, oldest first. */
    ghost var trace: seq<Access>

    constructor (file: Option<seq<Student>>, writable: bool)
      ensures this.file == file && this.writable == writable && trace == []
    {
      this.file := file;
      this.writable := writable;
      trace := [];
    }

    /** getStudents: the parsed file, or `None` (the source's `undefined`) when reading or parsing fails. */
    method Load() returns (r: Option<seq<Student>>)
      modifies this`trace
      ensures r == file
      ensures trace == old(trace) + [Read]
    {
      r := file;
      trace := trace + [Read];
    }

    /**
     * saveStudents: overwrites the file with `students`; on failure the
     * source rethrows, here `ok` is false and the file keeps its content.
     */
    method Save(students: seq<Student>) returns (ok: bool)
      modifies this`file, this`trace
      ensures ok == writable
      ensures file == if ok then Some(students) else old(file)
      ensures trace == old(trace) + [Write(students)]
    {
      ok := writable;
      if ok {
        file := Some(students);
      }
      trace := trace + [Write(students)];
    }
  }
}
