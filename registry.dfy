/**
 * The plugin callback (index.js:22-77) over the host pipeline's file
 * registry: `files` is the dictionary metalsmith passes in, which the plugin
 * updates in place, `keys` the order in which its keys were inserted (the
 * order `Object.keys` lists them in), and `doneCalls` counts the calls of the
 * completion callback `done`.
 */
module Plugin {
  import opened Values
  import opened Content
  import opened Assembly

  /**
   * What the history walk of one matched file yields (index.js:90): the
   * walker's list of commits, newest first, or a failure of the walk.
   */
  datatype Walk = Walked(history: seq<Commit>) | WalkFailed

  /**
   * The repository as the plugin reads it: the history walk of a file and
   * the lookup of a file's blob at a commit (index.js:110-121), which yields
   * `None` when the tree lookup or the blob lookup fails.
   */
  datatype Repo = Repo(walk: string -> Walk, blobOf: (string, Commit) -> Option<Blob>)

  /**
   * `getVersionsOf` after the walk (index.js:90-98): every history entry's
   * blob is looked up and paired with its commit, in the walker's order,
   * since `Promise.all` keeps the order of its inputs; one failed lookup
   * rejects the whole list.
   */
  function VersionsOf(file: string, history: seq<Commit>, blobOf: (string, Commit) -> Option<Blob>)
    : (r: Option<seq<RawVersion>>)
    ensures r.Some? <==> forall i :: 0 <= i < |history| ==> blobOf(file, history[i]).Some?
    ensures r.Some? ==> |r.value| == |history|
    ensures r.Some? ==> forall i :: 0 <= i < |history| ==>
      blobOf(file, history[i]).Some? && r.value[i] == RawVersion(history[i], blobOf(file, history[i]).value)
    decreases |history|
  {
    if history == [] then Some([])
    else
      match blobOf(file, history[0])
      case None => None
      case Some(b) =>
        match VersionsOf(file, history[1..], blobOf)
        case None =>
          assert forall i :: 0 <= i < |history| - 1 ==> history[1..][i] == history[i + 1];
          None
        case Some(rest) => Some([RawVersion(history[0], b)] + rest)
  }

  /**
   * The promise `getVersionsOf` returns for matched file `f`: the paired
   * versions, or `None` when it rejects.
   */
  function FileVersions(f: string, repo: Repo): (r: Option<seq<RawVersion>>)
    ensures r.Some? <==> (repo.walk(f).Walked? &&
      forall i :: 0 <= i < |repo.walk(f).history| ==> repo.blobOf(f, repo.walk(f).history[i]).Some?)
    ensures r.Some? ==> (|r.value| == |repo.walk(f).history| &&
      forall i :: 0 <= i < |r.value| ==> r.value[i].commit == repo.walk(f).history[i])
  {
    match repo.walk(f)
    case WalkFailed => None
    case Walked(h) => VersionsOf(f, h, repo.blobOf)
  }

  /** `r` lists some of the elements of `s`, in the order in which `s` lists them. */
  ghost predicate Subsequence<T>(r: seq<T>, s: seq<T>)
    decreases |s|
  {
    r == [] || (s != [] && ((r[0] == s[0] && Subsequence(r[1..], s[1..])) || Subsequence(r, s[1..])))
  }

  /** `Object.keys(files).filter(f => multimatch(f, opts.pattern).length)` */
  function Matched(keys: seq<string>, matches: string -> bool): (r: seq<string>)
    ensures forall f :: f in r <==> f in keys && matches(f)
    ensures |r| <= |keys|
    ensures Subsequence(r, keys)
    decreases |keys|
  {
    if keys == [] then []
    else
      var rest := Matched(keys[1..], matches);
      if matches(keys[0]) then
        assert ([keys[0]] + rest)[1..] == rest;
        [keys[0]] + rest
      else rest
  }

  /**
   * The registry and its key order after the promise of matched file `f`
   * settles: a file whose `getVersionsOf` promise rejects is left alone,
   * every other file is assembled from its versions.
   */
  function ProcessFile(files: map<string, Record>, keys: seq<string>, f: string, repo: Repo,
                       layout: Value, isUtf8: Utf8Test, matter: Splitter): (r: (map<string, Record>, seq<string>))
    requires f in files
    ensures files.Keys <= r.0.Keys
    ensures FileVersions(f, repo).None? ==> r == (files, keys)
  {
    match FileVersions(f, repo)
    case None => (files, keys)
    case Some(h) => (Assembled(files, f, h, layout, isUtf8, matter), AssembledOrder(keys, f, h, isUtf8, matter))
  }

  /** The registry after the matched files `order` have been processed one after the other. */
  function ProcessAll(files: map<string, Record>, keys: seq<string>, order: seq<string>, repo: Repo,
                      layout: Value, isUtf8: Utf8Test, matter: Splitter): (r: (map<string, Record>, seq<string>))
    requires forall f :: f in order ==> f in files
    ensures files.Keys <= r.0.Keys
    decreases |order|
  {
    if order == [] then (files, keys)
    else
      var next := ProcessFile(files, keys, order[0], repo, layout, isUtf8, matter);
      assert forall g :: g in order[1..] ==> g in order;
      ProcessAll(next.0, next.1, order[1..], repo, layout, isUtf8, matter)
  }

  /** Whether the promise of matched file `f` rejects: its walk or a blob lookup fails, or a version does not parse. */
  predicate FileFails(f: string, repo: Repo, isUtf8: Utf8Test, matter: Splitter)
    ensures FileFails(f, repo, isUtf8, matter) <==> (FileVersions(f, repo).None? ||
      exists i :: 0 <= i < |FileVersions(f, repo).value| &&
        ParseContent(f, FileVersions(f, repo).value[i].blob, isUtf8, matter).Failure?)
  {
    FileVersions(f, repo).None? ||
    (BuildRecordsFailsAt(f, FileVersions(f, repo).value, isUtf8, matter);
     BuildRecords(f, Oldest(FileVersions(f, repo).value), isUtf8, matter).Failure?)
  }

  /** Whether some matched file's promise rejects, so that the catch handler runs. */
  predicate RunFails(order: seq<string>, repo: Repo, isUtf8: Utf8Test, matter: Splitter)
    ensures RunFails(order, repo, isUtf8, matter) <==> exists f :: f in order && FileFails(f, repo, isUtf8, matter)
  {
    exists j :: 0 <= j < |order| && FileFails(order[j], repo, isUtf8, matter)
  }

  lemma RunFailsExtend(order: seq<string>, j: nat, repo: Repo, isUtf8: Utf8Test, matter: Splitter)
    requires j < |order|
    ensures RunFails(order[..j + 1], repo, isUtf8, matter) ==
            (RunFails(order[..j], repo, isUtf8, matter) || FileFails(order[j], repo, isUtf8, matter))
  {
    var longer, shorter := order[..j + 1], order[..j];
    if RunFails(shorter, repo, isUtf8, matter) {
      var x :| 0 <= x < j && FileFails(shorter[x], repo, isUtf8, matter);
      assert longer[x] == shorter[x];
      assert 0 <= x < |longer| && FileFails(longer[x], repo, isUtf8, matter);
    }
    if FileFails(order[j], repo, isUtf8, matter) {
      assert longer[j] == order[j];
      assert 0 <= j < |longer| && FileFails(longer[j], repo, isUtf8, matter);
    }
    if RunFails(longer, repo, isUtf8, matter) {
      var x :| 0 <= x < j + 1 && FileFails(longer[x], repo, isUtf8, matter);
      if x < j {
        assert longer[x] == shorter[x];
        assert 0 <= x < |shorter| && FileFails(shorter[x], repo, isUtf8, matter);
      } else {
        assert longer[x] == order[j];
      }
    }
  }

  /**
   * Only matched files get `versions`, `version` and `commit`: an entry
   * that is no matched file whose versions were read, and no version name
   * of any matched file, keeps its value.
   */
  lemma {:induction false} ProcessAllFrame(files: map<string, Record>, keys: seq<string>, order: seq<string>,
                                           repo: Repo, layout: Value, isUtf8: Utf8Test,
                                           matter: Splitter, k: string)
    requires forall f :: f in order ==> f in files
    requires k in files
    requires forall f :: f in order ==> (f != k || FileVersions(f, repo).None?) && VersionOfKey(f, k).None?
    ensures k in ProcessAll(files, keys, order, repo, layout, isUtf8, matter).0
    ensures ProcessAll(files, keys, order, repo, layout, isUtf8, matter).0[k] == files[k]
    decreases |order|
  {
    if order != [] {
      var f := order[0];
      assert forall g :: g in order[1..] ==> g in order;
      match FileVersions(f, repo)
      case None =>
        ProcessAllFrame(files, keys, order[1..], repo, layout, isUtf8, matter, k);
      case Some(h) =>
        AssembledFrame(files, f, h, layout, isUtf8, matter, k);
        var next := ProcessFile(files, keys, f, repo, layout, isUtf8, matter);
        ProcessAllFrame(next.0, next.1, order[1..], repo, layout, isUtf8, matter, k);
    }
  }

  /**
   * The registry while `AssembleFile` runs, after the first `i` historical
   * versions: the file object with `versions = []` and `i` pushes, and the
   * first `i` pseudo-files.
   */
  function Partial(f0: map<string, Record>, obj0: Record, file: string, recs: seq<Record>,
                   layout: Value, i: nat): map<string, Record>
    requires i <= |recs|
  {
    f0[file := obj0["versions" := List(HistoryList(recs, layout, i))]] + VersionEntries(file, recs, layout, i)
  }

  lemma UpdateOverUnion<K, V>(a: map<K, V>, b: map<K, V>, k: K, v: V)
    ensures (a + b)[k := v] == a + b[k := v]
  {
    assert ((a + b)[k := v]).Keys == (a + b[k := v]).Keys;
  }

  lemma UpdateBelowUnion<K, V>(a: map<K, V>, b: map<K, V>, k: K, v: V)
    requires k !in b
    ensures (a + b)[k := v] == a[k := v] + b
  {
    assert ((a + b)[k := v]).Keys == (a[k := v] + b).Keys;
  }

  lemma UpdateTwice<K, V>(m: map<K, V>, k: K, v: V, w: V)
    ensures m[k := v][k := w] == m[k := w]
  {
    assert m[k := v][k := w].Keys == m[k := w].Keys;
  }

  /** One historical step: register version `i`, then push it onto `versions`. */
  lemma PartialStep(f0: map<string, Record>, obj0: Record, file: string, recs: seq<Record>,
                    layout: Value, i: nat)
    requires i < |recs|
    ensures var p := Partial(f0, obj0, file, recs, layout, i);
      var d := Historical(recs[i], layout);
      var q := p[VersionKey(file, i) := d];
      && file in q && "versions" in q[file] && q[file]["versions"] == List(HistoryList(recs, layout, i))
      && q[file := q[file]["versions" := List(q[file]["versions"].items + [Obj(d)])]]
         == Partial(f0, obj0, file, recs, layout, i + 1)
  {
    var d := Historical(recs[i], layout);
    var vk := VersionKey(file, i);
    var xi := obj0["versions" := List(HistoryList(recs, layout, i))];
    var xj := obj0["versions" := List(HistoryList(recs, layout, i + 1))];
    var a, b := f0[file := xi], VersionEntries(file, recs, layout, i);
    VersionEntriesExcludeFile(file, recs, layout, i);
    VersionEntriesExcludeFile(file, recs, layout, i + 1);
    assert vk != file;
    UpdateOverUnion(a, b, vk, d);
    var q := a + b[vk := d];
    assert b[vk := d] == VersionEntries(file, recs, layout, i + 1);
    assert q[file] == xi;
    assert HistoryList(recs, layout, i) + [Obj(d)] == HistoryList(recs, layout, i + 1);
    UpdateTwice(obj0, "versions", List(HistoryList(recs, layout, i)), List(HistoryList(recs, layout, i + 1)));
    UpdateBelowUnion(a, b[vk := d], file, xj);
    UpdateTwice(f0, file, xi, xj);
  }

  /** The last step: the newest version annotates the file, completing the object `FileAfter` describes. */
  lemma PartialNewest(files0: map<string, Record>, file: string, walked: seq<RawVersion>,
                      recs: seq<Record>, layout: Value)
    requires file in files0 && |walked| >= 1 && |recs| == |walked|
    ensures var obj0 := files0[file]["versions" := List([])];
      var p := Partial(files0[file := obj0], obj0, file, recs, layout, |walked| - 1);
      && file in p
      && p[file := p[file]["version" := Num(|walked| - 1)]["commit" := CommitSummary(walked[0].commit)]]
         == files0[file := FileAfter(files0[file], walked, recs, layout)]
            + VersionEntries(file, recs, layout, |walked| - 1)
  {
    var m := |walked| - 1;
    var obj0 := files0[file]["versions" := List([])];
    var h := List(HistoryList(recs, layout, m));
    var x := obj0["versions" := h];
    var b := VersionEntries(file, recs, layout, m);
    var z := x["version" := Num(m)]["commit" := CommitSummary(walked[0].commit)];
    VersionEntriesExcludeFile(file, recs, layout, m);
    UpdateTwice(files0[file], "versions", List([]), h);
    assert z == FileAfter(files0[file], walked, recs, layout);
    UpdateTwice(files0, file, obj0, x);
    var a := files0[file := x];
    assert (a + b)[file] == x;
    UpdateBelowUnion(a, b, file, z);
    UpdateTwice(files0, file, x, z);
  }

  /** Registering version `i` appends its name to the key order unless it is already there. */
  lemma InsertedStep(keys0: seq<string>, file: string, i: nat)
    ensures Inserted(keys0, VersionNames(file, i + 1)) ==
            var p := Inserted(keys0, VersionNames(file, i));
            if VersionKey(file, i) in p then p else p + [VersionKey(file, i)]
  {
    assert VersionNames(file, i + 1)[..i] == VersionNames(file, i);
  }

  /** Record `i` is numbered `i` and carries the commit of the walker's entry `n-1-i`. */
  ghost predicate Numbered(recs: seq<Record>, walked: seq<RawVersion>)
  {
    && |recs| == |walked|
    && forall i :: 0 <= i < |recs| ==>
         && "version" in recs[i] && recs[i]["version"] == Num(i)
         && "commit" in recs[i] && recs[i]["commit"] == CommitSummary(walked[|walked| - 1 - i].commit)
  }

  lemma BuildRecordsAreNumbered(file: string, walked: seq<RawVersion>, isUtf8: Utf8Test, matter: Splitter)
    requires BuildRecords(file, Oldest(walked), isUtf8, matter).Success?
    ensures Numbered(BuildRecords(file, Oldest(walked), isUtf8, matter).value, walked)
  {
    forall i | 0 <= i < |walked| {
      BuildRecordsNumbered(file, Oldest(walked), isUtf8, matter, i);
    }
  }

  /**
   * The registry and its key order while the `forEach` of `AssembleFile`
   * runs, after its first `i` steps: `i` older versions registered, or, once
   * every step has run, the newest one made current as well.
   */
  ghost function Stage(files0: map<string, Record>, keys0: seq<string>, file: string, walked: seq<RawVersion>,
                       recs: seq<Record>, layout: Value, i: nat): (map<string, Record>, seq<string>)
    requires file in files0 && |recs| == |walked| && i <= |walked|
  {
    var obj0 := files0[file]["versions" := List([])];
    if i == |walked| then
      (files0[file := FileAfter(files0[file], walked, recs, layout)]
         + VersionEntries(file, recs, layout, HistoryCount(|walked|)),
       Inserted(keys0, VersionNames(file, HistoryCount(|walked|))))
    else
      (Partial(files0[file := obj0], obj0, file, recs, layout, i), Inserted(keys0, VersionNames(file, i)))
  }

  /** Before the first step the registry holds the file with `versions = []`, and nothing else changed. */
  lemma StageStart(files0: map<string, Record>, keys0: seq<string>, file: string, walked: seq<RawVersion>,
                   recs: seq<Record>, layout: Value)
    requires file in files0 && |recs| == |walked|
    ensures Stage(files0, keys0, file, walked, recs, layout, 0)
            == (files0[file := files0[file]["versions" := List([])]], keys0)
  {
    var obj0 := files0[file]["versions" := List([])];
    assert VersionNames(file, 0) == [];
    assert VersionEntries(file, recs, layout, 0) == map[];
    if |walked| == 0 {
      FileAfterFields(files0[file], walked, recs, layout);
    } else {
      assert HistoryList(recs, layout, 0) == [];
      UpdateTwice(files0[file], "versions", List([]), List([]));
      UpdateTwice(files0, file, obj0, obj0);
      assert files0[file := obj0] + map[] == files0[file := obj0];
    }
  }

  /** Before the last step the registry is the partial one. */
  lemma StageBefore(files0: map<string, Record>, keys0: seq<string>, file: string, walked: seq<RawVersion>,
                    recs: seq<Record>, layout: Value, i: nat)
    requires file in files0 && |recs| == |walked| && i < |walked|
    ensures var obj0 := files0[file]["versions" := List([])];
      Stage(files0, keys0, file, walked, recs, layout, i)
      == (Partial(files0[file := obj0], obj0, file, recs, layout, i), Inserted(keys0, VersionNames(file, i)))
  {
  }

  /** The last step makes the newest version current and registers nothing. */
  lemma StageLast(files0: map<string, Record>, keys0: seq<string>, file: string, walked: seq<RawVersion>,
                  recs: seq<Record>, layout: Value)
    requires file in files0 && |recs| == |walked| && |walked| >= 1
    ensures var obj0 := files0[file]["versions" := List([])];
      var p := Partial(files0[file := obj0], obj0, file, recs, layout, |walked| - 1);
      && file in p
      && Stage(files0, keys0, file, walked, recs, layout, |walked|)
         == (p[file := p[file]["version" := Num(|walked| - 1)]["commit" := CommitSummary(walked[0].commit)]],
             Inserted(keys0, VersionNames(file, |walked| - 1)))
  {
    PartialNewest(files0, file, walked, recs, layout);
  }

  class Registry {
    var files: map<string, Record>
    var keys: seq<string>
    var doneCalls: nat

    ghost predicate Valid()
      reads this
    {
      KeyOrder(keys, files)
    }

    /**
     * The registry metalsmith hands the plugin (index.js:22): its files, in
     * the order their keys were inserted, and no call of `done` yet.
     */
    constructor (files0: map<string, Record>, keys0: seq<string>)
      requires KeyOrder(keys0, files0)
      ensures Valid() && files == files0 && keys == keys0 && doneCalls == 0
    {
      files, keys, doneCalls := files0, keys0, 0;
    }

    /** `files[key] = value`: a new key goes to the end of the key order. */
    method Put(key: string, value: Record)
      requires Valid()
      modifies this
      ensures Valid()
      ensures files == old(files)[key := value]
      ensures keys == if key in old(files) then old(keys) else old(keys) + [key]
      ensures doneCalls == old(doneCalls)
    {
      if key !in files {
        keys := keys + [key];
      }
      files := files[key := value];
    }

    /**
     * The newest version annotates the file itself (index.js:54-57):
     * `files[file].version = data.version; files[file].commit = data.commit`.
     */
    method MakeCurrent(file: string, data: Record)
      requires Valid() && file in files && "version" in data && "commit" in data
      modifies this
      ensures Valid() && doneCalls == old(doneCalls) && keys == old(keys)
      ensures files == old(files)[file := old(files)[file]["version" := data["version"]]["commit" := data["commit"]]]
    {
      Put(file, files[file]["version" := data["version"]]);
      Put(file, files[file]["commit" := data["commit"]]);
      UpdateTwice(old(files), file, old(files)[file]["version" := data["version"]],
                  old(files)[file]["version" := data["version"]]["commit" := data["commit"]]);
    }

    /**
     * An older version (index.js:59-64): gets the layout override when it is
     * truthy, is registered under `file_versions/v<i>` and is pushed onto
     * `files[file].versions`.
     */
    method RegisterVersion(file: string, i: nat, data: Record, layout: Value, ghost f0: map<string, Record>,
                           ghost obj0: Record, ghost recs: seq<Record>, ghost keys0: seq<string>)
      requires Valid() && i < |recs| && data == recs[i]
      requires files == Partial(f0, obj0, file, recs, layout, i)
      requires keys == Inserted(keys0, VersionNames(file, i))
      modifies this
      ensures Valid() && doneCalls == old(doneCalls)
      ensures files == Partial(f0, obj0, file, recs, layout, i + 1)
      ensures keys == Inserted(keys0, VersionNames(file, i + 1))
    {
      var record := data;
      if Truthy(layout) {
        record := record["layout" := layout];
      }
      PartialStep(f0, obj0, file, recs, layout, i);
      InsertedStep(keys0, file, i);
      var name := VersionKey(file, i);
      Put(name, record);
      var cur := files[file];
      Put(file, cur["versions" := List(cur["versions"].items + [Obj(record)])]);
    }

    /**
     * The per-file callback (index.js:41-65) for the matched `file`, given
     * the walker's list `walked` (newest first): `versions = []`, then parse
     * and number every version oldest first, then register the older ones
     * and make the newest current.  Returns the error a frontmatter failure
     * raises, after which only `versions = []` has happened.
     */
    method AssembleFile(file: string, walked: seq<RawVersion>, layout: Value,
                        isUtf8: Utf8Test, matter: Splitter) returns (err: Option<Error>)
      requires Valid() && file in files
      modifies this
      ensures Valid()
      ensures err.Some? <==> BuildRecords(file, Oldest(walked), isUtf8, matter).Failure?
      ensures err.Some? ==> err.value == InvalidFrontmatter(file)
      ensures files == Assembled(old(files), file, walked, layout, isUtf8, matter)
      ensures keys == AssembledOrder(old(keys), file, walked, isUtf8, matter)
      ensures doneCalls == old(doneCalls)
    {
      ghost var files0, keys0 := files, keys;
      var obj0 := files[file]["versions" := List([])];
      Put(file, obj0);
      ghost var f0 := files;
      var n := |walked|;
      var built := BuildRecords(file, Oldest(walked), isUtf8, matter);
      if built.Failure? {
        return Some(built.error);
      }
      err := None;
      BuildRecordsAreNumbered(file, walked, isUtf8, matter);
      AnnotateVersions(file, walked, built.value, layout, files0, keys0);
      AssembledSuccess(files0, file, walked, layout, isUtf8, matter);
    }

    /**
     * One step of the `forEach` (index.js:53-65) on record `i`: the newest
     * version annotates the file, an older one is registered.
     */
    method AnnotateStep(file: string, walked: seq<RawVersion>, recs: seq<Record>, layout: Value, i: nat,
                        ghost files0: map<string, Record>, ghost keys0: seq<string>)
      requires Valid() && file in files0 && Numbered(recs, walked) && i < |walked|
      requires (files, keys) == Stage(files0, keys0, file, walked, recs, layout, i)
      modifies this
      ensures Valid() && doneCalls == old(doneCalls)
      ensures (files, keys) == Stage(files0, keys0, file, walked, recs, layout, i + 1)
    {
      ghost var obj0 := files0[file]["versions" := List([])];
      StageBefore(files0, keys0, file, walked, recs, layout, i);
      var data := recs[i];
      if data["version"] == Num(|walked| - 1) {
        assert i == |walked| - 1 && data["commit"] == CommitSummary(walked[0].commit);
        StageLast(files0, keys0, file, walked, recs, layout);
        MakeCurrent(file, data);
      } else {
        StageBefore(files0, keys0, file, walked, recs, layout, i + 1);
        RegisterVersion(file, i, data, layout, files0[file := obj0], obj0, recs, keys0);
      }
    }

    /**
     * The `forEach` over the numbered records (index.js:53-65), oldest
     * first: every older version is registered and pushed onto `versions`,
     * the newest annotates the file.
     */
    method AnnotateVersions(file: string, walked: seq<RawVersion>, recs: seq<Record>, layout: Value,
                            ghost files0: map<string, Record>, ghost keys0: seq<string>)
      requires Valid() && file in files0 && Numbered(recs, walked)
      requires files == files0[file := files0[file]["versions" := List([])]] && keys == keys0
      modifies this
      ensures Valid() && doneCalls == old(doneCalls)
      ensures files == files0[file := FileAfter(files0[file], walked, recs, layout)]
                       + VersionEntries(file, recs, layout, HistoryCount(|walked|))
      ensures keys == Inserted(keys0, VersionNames(file, HistoryCount(|walked|)))
    {
      StageStart(files0, keys0, file, walked, recs, layout);
      var i := 0;
      while i < |walked|
        invariant 0 <= i <= |walked|
        invariant Valid() && doneCalls == old(doneCalls)
        invariant (files, keys) == Stage(files0, keys0, file, walked, recs, layout, i)
      {
        AnnotateStep(file, walked, recs, layout, i, files0, keys0);
        i := i + 1;
      }
    }

    /**
     * The promise of one matched file (index.js:35-65): read its versions
     * and assemble it.  Returns whether the promise rejects.
     */
    method ProcessOne(f: string, repo: Repo, layout: Value, isUtf8: Utf8Test, matter: Splitter)
      returns (failed: bool)
      requires Valid() && f in files
      modifies this
      ensures Valid() && doneCalls == old(doneCalls)
      ensures (files, keys) == ProcessFile(old(files), old(keys), f, repo, layout, isUtf8, matter)
      ensures failed == FileFails(f, repo, isUtf8, matter)
    {
      match FileVersions(f, repo) {
        case None =>
          failed := true;
        case Some(h) =>
          var e := AssembleFile(f, h, layout, isUtf8, matter);
          failed := e.Some?;
      }
    }

    /**
     * One run of the plugin over the registry (index.js:22-77): open the
     * repository (its outcome is `repoOpened`) and process every matched
     * file.  On success `done` is called in the `.then`; when that call
     * throws (`doneThrows`) the `.catch` runs and calls `done` a second time.
     * On every other path the `.catch` or the `.then` calls `done` once.  The
     * result says whether the catch handler ran.
     */
    method Run(matches: string -> bool, repoOpened: bool, repo: Repo, layout: Value,
               isUtf8: Utf8Test, matter: Splitter, doneThrows: bool) returns (caught: bool)
      requires Valid()
      modifies this
      ensures Valid()
      ensures !repoOpened ==> caught && files == old(files) && keys == old(keys)
      ensures repoOpened ==>
        (files, keys) == ProcessAll(old(files), old(keys), Matched(old(keys), matches), repo,
                                    NormalizeLayout(layout), isUtf8, matter)
      ensures repoOpened ==>
        caught == (RunFails(Matched(old(keys), matches), repo, isUtf8, matter) || doneThrows)
      ensures doneCalls == old(doneCalls) +
        if repoOpened && !RunFails(Matched(old(keys), matches), repo, isUtf8, matter) && doneThrows then 2 else 1
    {
      if !repoOpened {
        caught := true;
        doneCalls := doneCalls + 1;
        return;
      }
      var opt := NormalizeLayout(layout);
      var matched := Matched(keys, matches);
      ghost var files0, keys0 := files, keys;
      caught := false;
      var j := 0;
      while j < |matched|
        invariant 0 <= j <= |matched|
        invariant Valid() && doneCalls == old(doneCalls)
        invariant forall f :: f in matched ==> f in files
        invariant ProcessAll(files, keys, matched[j..], repo, opt, isUtf8, matter)
                  == ProcessAll(files0, keys0, matched, repo, opt, isUtf8, matter)
        invariant caught == RunFails(matched[..j], repo, isUtf8, matter)
      {
        assert matched[j..][1..] == matched[j + 1..];
        var failed := ProcessOne(matched[j], repo, opt, isUtf8, matter);
        caught := caught || failed;
        RunFailsExtend(matched, j, repo, isUtf8, matter);
        j := j + 1;
      }
      assert matched[..j] == matched;
      doneCalls := doneCalls + 1;
      if !caught && doneThrows {
        caught := true;
        doneCalls := doneCalls + 1;
      }
    }
  }
}
