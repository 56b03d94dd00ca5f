# Student records: a Dafny model of the record logic in `utils.js`

The application keeps a list of students, each a record `{name, birth}`, in a
JSON data file. Its record logic sits in `utils.js`: `addStudent`,
`updateStudent` and `deleteStudent` each validate their arguments, load the
whole collection, check it, change it, save it, and return a result record
`{status, message, students?, student?}`. On success, `students` is the saved
collection with a display date `formattedBirth` added to each entry.
`formatDate` builds that display date. It tries the date library's default
parse, then the shapes `YYYY-DD-MM`, `DD-MM-YYYY` and `MM-DD-YYYY` in that
order, and renders the first valid parse as `DD/MM/YYYY`. If nothing parses,
or anything throws, it returns its input unchanged.

Files and modules:

- `wrappers.dfy` (`Wrappers`): `Option`.
- `date_format.dfy` (`DateFormat`): `formatDate`. The date library is a
  `DateLib` of two oracles. `parse(input, format)` gives `Valid(date)`,
  `Invalid` or `Raised` (it threw). `render(date, pattern)` gives `None` when
  it throws. `FormatDate` is the method with the source's loop. `Formatted`
  is the function that specifies it, and the lemmas below state the order of
  the attempts and the fallback.
- `students.dfy` (`Students`): the `Student` record and the collection
  operations the source applies to the loaded array: `.some`, `.findIndex`,
  `.filter`, and the result-building `.map`.
- `store.dfy` (`StudentStore`): `getStudents`/`saveStudents` as a `Store`
  object. `file` is what the data file parses to (`None` when it is missing
  or invalid). `writable` says whether writing succeeds. A ghost `trace`
  records every load and attempted save.
- `service.dfy` (`StudentService`): the three operations, as methods that
  change the `Store`. It ends with a client, `Walkthrough`, that runs one
  scenario through their contracts: add, rename, delete.

Two behaviours of the code are worth noting:

- A failed load does not read as an empty collection. `getStudents` logs the
  failure and returns `undefined` (utils.js:28-31). This holds even though
  its comment speaks of using default data. Calling `.some` or `.findIndex`
  on `undefined` then throws, and the operation's generic error is returned
  (for example utils.js:119-122). So with a missing data file, no student can
  ever be added.
- `deleteStudent` checks that the name exists and reports "not found"
  (utils.js:182-184). It never saves when the name is absent.

## Model

| member | source | states |
|---|---|---|
| `DateFormat.FormatDate` | utils.js:62-86 | returns exactly `Formatted(lib, input)`: the default parse first, then the alternate formats in order, stopping at the first valid parse or exception; the loop invariant keeps the untried suffix of the format list |
| `DateFormat.AttemptReachesFirstDecisive` | utils.js:72-77 | if every earlier format reports an invalid date, the first format that does not is the only one that decides the result |
| `DateFormat.FirstValidFormatWins` | utils.js:65-77 | if every format before k in the order default, `YYYY-DD-MM`, `DD-MM-YYYY`, `MM-DD-YYYY` reports an invalid date and format k parses validly, the result is the `DD/MM/YYYY` rendering of that parse (or the input if rendering throws) |
| `DateFormat.RaisedParsePassesThrough` | utils.js:82-85 | a parse that throws, once reached, makes the result the input unchanged |
| `DateFormat.NoFormatPassesThrough` | utils.js:79-81 | when every format reports an invalid date, the input is returned unchanged |
| `DateFormat.AttemptIsInputOrRendering` | utils.js:62-85 | the result is always either the input or the rendering of a valid parse of it under one of the tried formats |
| `Students.FindIndex` | utils.js:139 | -1 exactly when no entry has the name; otherwise an index holding the name with no earlier index holding it |
| `Students.UniqueFindIndex` | utils.js:139 | with unique names, the index found for an entry's name is that entry's own index |
| `Students.Without` | utils.js:186 | the result is no longer than the input, and every entry in it comes from the input and has a different name |
| `Students.WithoutKeepsOthers` | utils.js:186 | every record whose name differs occurs in the result exactly as often as in the input |
| `Students.WithoutConcat` | utils.js:186 | the filter distributes over concatenation, so the remaining entries keep their relative order |
| `Students.WithoutAbsent` | utils.js:182-186 | filtering out a name nobody has leaves the collection unchanged |
| `Students.WithoutPresentShrinks` | utils.js:182-186 | filtering out a name somebody has makes the collection strictly shorter |
| `Students.WithoutKeepsUnique` | utils.js:186 | a collection with unique names keeps them after the filter |
| `Students.AppendKeepsUnique` | utils.js:103-108 | appending a record whose name is absent keeps names unique |
| `Students.ReplaceKeepsUnique` | utils.js:146-155 | replacing one entry by a record that keeps that entry's name, or takes a name nobody has, keeps names unique |
| `Students.Present` | utils.js:114-117 | the result entries match the collection one to one, in order: same length, entry i has entry i's `name` and `birth` and `formattedBirth == Formatted(lib, birth)` |
| `Students.StoredPresent` | utils.js:114-117 | dropping `formattedBirth` from the result gives back exactly the saved collection |
| `StudentStore.Store.Load` | utils.js:16-32 | yields the parsed data file, or `None` (the source's `undefined`) when it is missing or invalid; records a read |
| `StudentStore.Store.Save` | utils.js:39-55 | when writing succeeds the file then holds exactly the collection; otherwise it reports failure; records the attempted write |
| `StudentService.AddStudent` | utils.js:94-123 | empty name or birth: "all fields required" with no load and no save; failed load: generic error, no save; name already present: duplicate error, no save; otherwise the old collection with `{name, birth}` appended is saved and returned formatted, or the generic error on a failed save; unique names stay unique; a success result's students are the saved collection |
| `StudentService.UpdateStudent` | utils.js:132-170 | empty name or birth: "all fields required" with no load or save; failed load: generic error; `originalName` absent: "not found", no save; renaming onto another student's name: duplicate error carrying `{originalName, birth}`, no save; otherwise only the first index holding `originalName` is replaced, the length and all other entries are kept, and the result is saved and returned formatted (generic error on a failed save); unique names stay unique |
| `StudentService.DeleteStudent` | utils.js:177-201 | failed load: generic error; name absent: "not found", no save; otherwise the collection filtered of every entry with that name is saved and returned formatted (generic error on a failed save); unique names stay unique |

## Left out

- The HTTP layer in `server.js` is not modelled: routing, the list and edit pages, rendering and configuration. It only forwards to the operations above and renders their results. The list page is part of it.
- File-system work is not modelled: directory creation, reading, writing, path joining, and JSON parsing and serialisation. The data file is modelled by the collection it parses to, and every read or parse failure is one `None`; a failed write is `writable == false`.
- StudentStore.Store.Load: it does not model that loading can create the data directory as a side effect.
- StudentStore.Store.Load: it assumes a file that parses holds an array of `{name, birth}` records with string fields. Other JSON values, and fields the `{...student}` spread would copy through, are not modelled.
- StudentStore.Store.Save: a failed write leaves the file unchanged. The source's `writeFile` could leave it partly written.
- The date library's internals are not modelled: ISO and custom-format parsing, validity checks, the French locale and rendering. They are the `DateLib` oracles. So concrete renderings, such as `2000-01-15` shown as `15/01/2000`, are outside the model.
- Absent form fields (`undefined`) are not distinct values here; they are the empty string. The source's `!name || !birth` treats both the same way.
- `async`/`await` and the missing write lock are not modelled. Each operation is one atomic step, so the last-write-wins race between concurrent requests is not captured.
- Console logging and warnings are not modelled.
