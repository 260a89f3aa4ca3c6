# metalsmith-git, modelled in Dafny

metalsmith-git is a metalsmith plugin. For every source file that matches
the plugin's pattern it reads the file's history from the Git repository.
It then adds the older versions of the file to the build as extra files.

For a matched file `f` with `n` versions in its history, the plugin does
three things:

- It stamps every version with its commit summary and with its index,
  counted oldest first.
- It makes the newest version current: `files[f].version` is `n-1` and
  `files[f].commit` is the newest commit.
- It registers each older version `i` under `f + "_versions/v" + i`, with
  the configured layout when there is one, and pushes the same record onto
  `files[f].versions`.

Each version's blob is parsed the way metalsmith parses a source file.
Text has its frontmatter split off. Binary content is kept as raw bytes.

The model is in five modules:

- `Values` (`values.dfy`): the JavaScript values the plugin touches. A file
  object is a `map<string, Value>`. The module also has JavaScript
  truthiness, commits and blobs, the commit summary and the `layout`
  default.
- `Decimal` (`decimal.dfy`): `"v" + n`, the decimal representation of a
  version number. It is proved to round-trip, which makes version names
  injective.
- `Content` (`content.dfy`): `parseContent`'s classification of a blob,
  and the path of Git's loose object file for a SHA.
- `Assembly` (`assembly.dfy`): the per-file assembly as functions on values.
  These are the version names, the numbered records, the registry after
  one file (`Assembled`) and its key order (`AssembledOrder`). The
  properties the plugin promises are proved about them as lemmas.
- `Plugin` (`registry.dfy`): the plugin callback over a `Registry` class.
  - The class holds the `files` dictionary the plugin updates in place.
  - It also holds `keys`, the insertion order in which `Object.keys` lists
    the files.
  - `doneCalls` counts the calls of `done`.
  - Every method is proved against the `Assembly` functions. `AssembleFile`
    ends in the state `Assembled` describes, and `Run` in the state
    `ProcessAll` describes.

## Model

| member | source | states |
|---|---|---|
| Values.CommitSummary | index.js:44-49 | the commit object has exactly the keys `id`, `message`, `author`, `date`, holding the commit's id, message, author name and date |
| Values.CommitSummaryInjective | index.js:44-49 | distinct commits have distinct summaries |
| Values.NormalizeLayout | index.js:18 | `opts.layout \|\| null`: a truthy layout is kept, a falsy one becomes `null` |
| Values.Truthy | index.js:59 | the test `if(opts.layout)`: `undefined` and `null` are falsy, and every object (a Buffer, a Date, an array, a plain object) is truthy |
| Decimal.NatToString | index.js:62 | `"" + n` is a non-empty string of decimal digits, a single digit exactly when `n < 10`; its lemmas prove it has no leading zero and reads back as `n` |
| Decimal.NatToStringWellFormed | index.js:62 | `"" + n` is a non-empty string of decimal digits without a leading zero |
| Decimal.NatToStringRoundTrip | index.js:62 | reading the digits of `"" + n` back gives `n` |
| Decimal.NatToStringInjective | index.js:62 | distinct version numbers give distinct strings |
| Content.ParseContent | index.js:126-147 | a blob fails to parse exactly when it is UTF-8 and its frontmatter does not split; the error is `invalid_frontmatter` naming the file; binary content becomes a record whose only key is `contents`, holding the original bytes |
| Content.ParseContentText | index.js:134-144 | for UTF-8 content every frontmatter key is copied and `contents` is the body, replacing a frontmatter key of that name |
| Content.ParseContentAsWritten | index.js:134-147 | the code as written: it fails on the same blobs, but with a ReferenceError for `file` |
| Content.AsWrittenAgreesOnSuccess | index.js:134-147 | the code as written and the corrected version succeed on the same blobs and then give the same record |
| Content.AsWrittenRaisesReferenceError | index.js:139 | on a UTF-8 blob whose frontmatter block is malformed YAML, rejected by the splitter, the code as written raises a ReferenceError where the corrected version raises `invalid_frontmatter` |
| Content.LooseObjectPath | index.js:131-132 | the object file is `<gitdir>/objects/<dir>/<file>`; the two-character directory segment and the file segment concatenate to the SHA |
| Content.ObjectDirSegment | index.js:132 | `sha.slice(0, 2)` is a prefix of the SHA: its first two characters, or the whole SHA when it is shorter |
| Content.ObjectFileSegment | index.js:132 | `sha.slice(2)` is the rest of the SHA: the directory segment followed by it is the SHA |
| Content.ObjectPathInjective | index.js:131-132 | distinct objects of one repository have distinct object files |
| Assembly.VersionKey | index.js:62 | a version name begins with the file's name and is longer than it |
| Assembly.VersionKeyRoundTrip | index.js:62 | the version number is read back from a version name |
| Assembly.VersionOfKeySound | index.js:62 | a key the reader accepts is exactly some version's name |
| Assembly.VersionKeyInjective | index.js:62 | distinct versions of a file get distinct names |
| Assembly.Oldest | index.js:42 | `versions.reverse()`: entry `i` oldest first is walker entry `n-1-i` |
| Assembly.Stamp | index.js:44-50 | the stamped record has `commit` and `version` set over the parsed record and keeps every other key |
| Assembly.BuildRecords | index.js:42-52 | the map over the versions, oldest first: when it fails the error is `invalid_frontmatter` naming the file, and when it succeeds there is one record per version |
| Assembly.BuildRecordsSucceeds | index.js:42-52 | the map over the versions succeeds exactly when every version parses |
| Assembly.BuildRecordsFailsAt | index.js:42-52 | the map fails exactly when some entry of the walker's list does not parse |
| Assembly.BuildRecordsAt | index.js:42-52 | record `i` is version `i` (oldest first), parsed and stamped with its commit and the number `i` |
| Assembly.BuildRecordsNumbered | index.js:42-52 | contiguous numbering: record `i` has `version == i` and the commit of version `i` |
| Assembly.Historical | index.js:59-61 | a historical record gets `layout` exactly when the layout option is truthy, with that option's value |
| Assembly.HistoryList | index.js:64 | `versions` holds the historical records oldest first, one per older version |
| Assembly.VersionEntriesKeys | index.js:62-63 | the keys registered for `m` older versions are exactly the version names below `m` |
| Assembly.VersionEntriesAt | index.js:62-63 | the name of version `i` holds version `i`'s historical record |
| Assembly.VersionEntriesExcludeFile | index.js:62 | no version name is the file's own name |
| Assembly.FileAfterFields | index.js:41-64 | after assembly the file object has `versions`, `version == n-1` and the newest commit; without versions it only has `versions = []`; every other property is kept |
| Assembly.Assembled | index.js:41-65 | the registry after one matched file keeps every key it had; `AssembledSuccess`, `AssembledFrame`, `AssembledHistory` and `AssembledRecord` state its entries |
| Assembly.Inserted | index.js:63 | the key order after assigning each name in turn keeps the old order as its prefix and grows by at most one key per name |
| Assembly.InsertedOrder | index.js:62-63 | registering new names keeps the old key order as a prefix, appends only new names, and keeps the keys free of duplicates |
| Assembly.AssembledOrder | index.js:62-63 | the key order after one matched file keeps the old order as its prefix and adds at most one name per older version; when a version does not parse it is unchanged |
| Assembly.AssembledSuccess | index.js:41-65 | when every version parses, the registry is the old one with the file object updated, plus one entry per older version |
| Assembly.AssembledCurrent | index.js:54-58 | the newest walker entry becomes current: `version == n-1`, `commit` is its summary, and no name for version `n-1` is created |
| Assembly.AssembledHistory | index.js:41-64 | `files[file].versions` holds `n-1` records, oldest first, and record `i` is the very value registered under version `i`'s name |
| Assembly.HistoricalRecordFields | index.js:43-61 | a registered record has its version number, its commit, `layout` exactly when the option is truthy, raw bytes for binary content, and the frontmatter keys for text, overwritten by `contents`, `commit` and `version` |
| Assembly.AssembledRecord | index.js:43-63 | the record under version `i`'s name is walker entry `n-1-i`, parsed, stamped with `i` and given the layout override |
| Assembly.AssembledFrame | index.js:33-63 | the only keys added are the names of older versions; every other entry but the file's own keeps its value, and an existing key equal to a version name is overwritten |
| Assembly.AssembledKeepsProperties | index.js:41-64 | the file object keeps every property except `versions`, `version` and `commit`, so the current version never gets the layout override |
| Assembly.AssembledWithoutHistory | index.js:41-52 | a file without versions, or one with a version whose frontmatter does not split, ends with `versions == []` and nothing else changed |
| Plugin.VersionsOf | index.js:90-98 | the blob of every history entry is paired with its commit in walker order; one failed lookup fails the whole list; `ProcessFile` assembles from this list |
| Plugin.FileVersions | index.js:86-99 | the promise `getVersionsOf` returns resolves exactly when the walk succeeds and every history entry's blob is found; it then holds one version per history entry, with that entry's commit, in walker order |
| Plugin.Matched | index.js:33-34 | the matched files are the keys the pattern accepts, and only those, listed in `Object.keys` order |
| Plugin.ProcessFile | index.js:35-65 | a file whose versions cannot be read, because its walk or one of its blob lookups fails, is left alone |
| Plugin.ProcessAll | index.js:33-69 | processing the matched files one after the other keeps every key of the registry; `ProcessAllFrame` states which entries keep their value |
| Plugin.FileFails | index.js:35-65 | a matched file's promise rejects exactly when its versions cannot be read or some walker entry does not parse |
| Plugin.RunFails | index.js:69-76 | `Promise.all` rejects, and the catch handler runs, exactly when some matched file's promise rejects |
| Plugin.RunFailsExtend | index.js:69-76 | the run fails after one more file exactly when it failed before or that file's promise rejects |
| Plugin.ProcessAllFrame | index.js:33-41 | a key that is no matched file whose versions were read, and no version name of any matched file, keeps its entry through the whole run |
| Plugin.PartialStep | index.js:62-64 | registering version `i` and pushing it onto `versions` turns the registry after `i` versions into the registry after `i+1` |
| Plugin.PartialNewest | index.js:54-57 | the last step completes the file object `FileAfter` describes |
| Plugin.InsertedStep | index.js:63 | registering version `i` appends its name to the key order unless it is already a key |
| Plugin.BuildRecordsAreNumbered | index.js:42-52 | every stamped record carries its index and its commit |
| Plugin.StageStart | index.js:41 | before the `forEach` the registry holds the file with `versions = []` and nothing else changed |
| Plugin.StageLast | index.js:54-57 | the last step makes the newest version current and registers nothing |
| Plugin.Registry.constructor | index.js:22 | the registry starts with the files metalsmith passes, in their key order, and no call of `done` |
| Plugin.Registry.Put | index.js:63 | `files[key] = value`: a new key goes to the end of the key order, and an existing key keeps its place |
| Plugin.Registry.MakeCurrent | index.js:54-57 | the file object gets `version` and `commit`; nothing else changes |
| Plugin.Registry.RegisterVersion | index.js:59-64 | version `i`, with the layout override, is registered under its name and pushed onto `versions` |
| Plugin.Registry.AssembleFile | index.js:38-65 | the registry and its key order end as `Assembled` and `AssembledOrder` describe; it reports an error exactly when some version fails to parse, and that error is `invalid_frontmatter` naming the file |
| Plugin.Registry.AnnotateStep | index.js:53-65 | one step of the `forEach` moves the registry from stage `i` to stage `i+1` |
| Plugin.Registry.AnnotateVersions | index.js:53-65 | the `forEach` registers every older version and makes the newest current |
| Plugin.Registry.ProcessOne | index.js:35-65 | one matched file's promise: the registry ends as `ProcessFile` describes, and the promise rejects exactly when the walk or a blob lookup fails or a version does not parse |
| Plugin.Registry.Run | index.js:22-77 | if the repository does not open, nothing changes and the catch handler runs; otherwise the matched files are processed as `ProcessAll` describes, and the catch handler runs exactly when some matched file's promise rejects or the success-path `done` throws; `done` is called twice in that last case and once on every other path |

## Left out

- Git access through nodegit (index.js:27-31, 86-90, 110-121) is not modelled. This covers opening the repository, the master commit, the revision walk and the tree and blob lookups. Their outcomes are inputs: `repoOpened` (with `getMasterCommit` folded in), and a `Repo` giving each file's walker list of commits (`walk`) and the blob lookup at a commit (`blobOf`).
- Rename tracking and the depth limit of 1000 happen inside `fileHistoryWalk`, which is not part of this model. The walker's list is an arbitrary input sequence.
- `multimatch`, `gray-matter` and `is-utf8` are parameters. The first is the `matches` predicate, `opts.pattern || []` included. The second is the `Splitter`, decoding to a string and `new Buffer` included. The third is the `Utf8Test`.
- `Splitter`: gray-matter's `data` is taken to be a plain object. If it were `null` or a primitive, for example a YAML scalar as the whole frontmatter, the assignment `ret.contents = ...` (index.js:143-144) would throw a TypeError. The file's promise would then reject as on a parse failure. That path is not modelled.
- `fs.statSync` and `stat-mode` (index.js:149-150) are filesystem access and are not modelled. So `stats` and `mode` are missing from the records. A stat failure is missing too; it rejects the file's promise the way a parse failure does.
- `debug` logging, the `opts.repo` default and the `path.join` / `path.relative` prefix computation (index.js:23-26, 36) are not modelled. `LooseObjectPath` returns the path components, not `path.join`'s normalised string.
- Plugin.Registry.Run: `Promise.all` concurrency is not modelled. The files are processed one after the other, in `Object.keys` order. Without that ordering, JavaScript may call `done` when the first promise rejects, before the other files finish.
- Plugin.Registry.Run: when the second `done` call in the catch handler throws as well, the rejection is unhandled. That has no effect on the registry, and the model does not track it.
- Plugin.Registry.Run: when two matched files produce colliding keys, the final state can depend on the order in which their promises settle. The model fixes that order.
- Object identity is modelled as value equality. The record in `files[file].versions` and the one registered under the version's name are the same object in JavaScript; here they are equal values. Later mutation through one alias is not modelled.
- `Object.keys` lists integer-like keys ahead of the others in JavaScript. The key order here is plain insertion order.
- `NormalizeLayout`, `Truthy`: `NaN` and `-0` are not modelled, because numbers are integers.

## Findings

| source | as written | input that shows it | evidently intended | confidence | as-written member | corrected member |
|---|---|---|---|---|---|---|
| index.js:139 | the catch block builds its message from `file`, which is bound only inside the callback at index.js:35 and never in `parseContent`; reading it throws a ReferenceError | a UTF-8 blob whose frontmatter block is malformed YAML, `---\na: [\n---\n`, which gray-matter throws on | throw an Error with code `invalid_frontmatter` that names the file being versioned | high, not executed | Content.ParseContentAsWritten, Content.AsWrittenRaisesReferenceError | Content.ParseContent |

Either way the promise rejects, the catch handler runs and `done` is called. So the run's outcome is the same, and only the error's kind and message differ. The rest of the model uses `Content.ParseContent`, which takes the file's name as a parameter.
