/**
 * The student record and the collection operations utils.js applies to the
 * loaded array: `some` on the name, `findIndex` on the name, `filter` out a
 * name, and the `map` that adds a display date to each entry of a result.
 */
module Students {
  import opened DateFormat

  /** A stored record `{name, birth}`; `name` acts as the key. */
  datatype Student = Student(name: string, birth: string)

  /** An entry of a success result: the stored record plus its display date. */
  datatype ShownStudent = ShownStudent(name: string, birth: string, formattedBirth: string)

  /** `students.some(s => s.name === n)` */
  predicate HasName(s: seq<Student>, n: string)
  {
    exists i | 0 <= i < |s| :: s[i].name == n
  }

  /** No two entries share a name. */
  predicate UniqueNames(s: seq<Student>)
  {
    forall i, j | 0 <= i < |s| && 0 <= j < |s| && i != j :: s[i].name != s[j].name
  }

  /** `students.findIndex(s => s.name === n)`: the first index holding `n`, or -1. */
  function FindIndex(s: seq<Student>, n: string): (i: int)
    ensures -1 <= i < |s|
    ensures i == -1 <==> !HasName(s, n)
    ensures 0 <= i ==> s[i].name == n && forall j :: 0 <= j < i ==> s[j].name != n
  {
    if s == [] then -1
    else if s[0].name == n then 0
    else
      var k := FindIndex(s[1..], n);
      assert forall j :: 1 <= j < |s| ==> s[j] == s[1..][j - 1];
      if k == -1 then -1 else k + 1
  }

  /** `students.filter(student => student.name !== n)` */
  function Without(s: seq<Student>, n: string): (r: seq<Student>)
    ensures |r| <= |s|
    ensures forall x :: x in r ==> x in s && x.name != n
  {
    if s == [] then []
    else if s[0].name != n then [s[0]] + Without(s[1..], n)
    else Without(s[1..], n)
  }

  /** The display entry for one record. */
  function Show(lib: DateLib, x: Student): ShownStudent
  {
    ShownStudent(x.name, x.birth, Formatted(lib, x.birth))
  }

  /** `students.map(student => ({...student, formattedBirth: formatDate(student.birth)}))` */
  function Present(lib: DateLib, s: seq<Student>): (r: seq<ShownStudent>)
    ensures |r| == |s|
    ensures forall i :: 0 <= i < |s| ==> r[i].name == s[i].name && r[i].birth == s[i].birth
    ensures forall i :: 0 <= i < |s| ==> r[i].formattedBirth == Formatted(lib, s[i].birth)
  {
    if s == [] then [] else [Show(lib, s[0])] + Present(lib, s[1..])
  }

  /** The stored records behind display entries (drops each `formattedBirth`). */
  function Stored(r: seq<ShownStudent>): seq<Student>
  {
    if r == [] then [] else [Student(r[0].name, r[0].birth)] + Stored(r[1..])
  }

  /** Dropping the display dates from a result gives back exactly the saved collection, in order. */
  lemma {:induction false} StoredPresent(lib: DateLib, s: seq<Student>)
    ensures Stored(Present(lib, s)) == s
  {
    if s != [] {
      StoredPresent(lib, s[1..]);
      assert Present(lib, s)[1..] == Present(lib, s[1..]);
    }
  }

  /** Filtering distributes over concatenation: entries keep their relative order. */
  lemma {:induction false} WithoutConcat(a: seq<Student>, b: seq<Student>, n: string)
    ensures Without(a + b, n) == Without(a, n) + Without(b, n)
  {
    if a == [] {
      assert a + b == b;
    } else {
      assert (a + b)[1..] == a[1..] + b;
      WithoutConcat(a[1..], b, n);
    }
  }

  /** Every entry whose name differs from `n` survives the filter as often as it occurred. */
  lemma {:induction false} WithoutKeepsOthers(s: seq<Student>, n: string, x: Student)
    requires x.name != n
    ensures multiset(Without(s, n))[x] == multiset(s)[x]
  {
    if s != [] {
      WithoutKeepsOthers(s[1..], n, x);
      assert s == [s[0]] + s[1..];
    }
  }

  /** Filtering out a name that is absent changes nothing. */
  lemma {:induction false} WithoutAbsent(s: seq<Student>, n: string)
    requires !HasName(s, n)
    ensures Without(s, n) == s
  {
    if s != [] {
      assert !HasName(s[1..], n) by {
        forall i | 0 <= i < |s[1..]| ensures s[1..][i].name != n {
          assert s[1..][i] == s[i + 1];
        }
      }
      WithoutAbsent(s[1..], n);
    }
  }

  /** Filtering out a name that is present makes the collection strictly shorter. */
  lemma {:induction false} WithoutPresentShrinks(s: seq<Student>, n: string)
    requires HasName(s, n)
    ensures |Without(s, n)| < |s|
  {
    if s[0].name != n {
      assert HasName(s[1..], n) by {
        var i :| 0 <= i < |s| && s[i].name == n;
        assert s[1..][i - 1] == s[i];
      }
      WithoutPresentShrinks(s[1..], n);
    }
  }

  /** Filtering keeps names unique. */
  lemma {:induction false} WithoutKeepsUnique(s: seq<Student>, n: string)
    requires UniqueNames(s)
    ensures UniqueNames(Without(s, n))
  {
    if s != [] {
      var rest := s[1..];
      assert UniqueNames(rest) by {
        forall i, j | 0 <= i < |rest| && 0 <= j < |rest| && i != j
          ensures rest[i].name != rest[j].name
        {
          assert rest[i] == s[i + 1] && rest[j] == s[j + 1];
        }
      }
      WithoutKeepsUnique(rest, n);
      if s[0].name != n {
        var r := Without(rest, n);
        forall k | 0 <= k < |r| ensures r[k].name != s[0].name {
          assert r[k] in rest;
          var m :| 0 <= m < |rest| && rest[m] == r[k];
          assert rest[m] == s[m + 1];
        }
        assert Without(s, n) == [s[0]] + r;
      }
    }
  }

  /** Appending a record whose name is absent keeps names unique. */
  lemma AppendKeepsUnique(s: seq<Student>, x: Student)
    requires UniqueNames(s)
    requires !HasName(s, x.name)
    ensures UniqueNames(s + [x])
  {
  }

  /**
   * Replacing entry k by a record that keeps k's name, or takes a name no
   * entry holds, keeps names unique.
   */
  lemma ReplaceKeepsUnique(s: seq<Student>, k: nat, x: Student)
    requires UniqueNames(s)
    requires k < |s|
    requires x.name == s[k].name || !HasName(s, x.name)
    ensures UniqueNames(s[k := x])
  {
  }

  /** In a collection with unique names, `findIndex` finds the one entry holding the name. */
  lemma UniqueFindIndex(s: seq<Student>, k: nat)
    requires UniqueNames(s)
    requires k < |s|
    ensures FindIndex(s, s[k].name) == k
  {
  }
}
