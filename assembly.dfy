/**
 * The version assembly of the plugin callback (index.js:33-65) as functions
 * of the file registry: what a matched file and the registry look like once
 * the file's history has been turned into numbered versions.  The methods of
 * `Plugin.Registry` that perform the assembly step by step are proved to
 * reach exactly these states.
 */
module Assembly {
  import opened Values
  import opened Decimal
  import opened Content

  // ---------------------------------------------------------------------
  // Version names: `file + "_versions/v" + n` (index.js:62)
  // ---------------------------------------------------------------------

  function VersionPrefix(file: string): string
  {
    file + "_versions/v"
  }

  /** The registry key under which version `n` of `file` is registered. */
  function VersionKey(file: string, n: nat): (k: string)
    ensures |k| > |file| && k[..|file|] == file
  {
    VersionPrefix(file) + NatToString(n)
  }

  /**
   * The version number a registry key names for `file`, if it is a version
   * name of `file` at all: the inverse of `VersionKey`.
   */
  function VersionOfKey(file: string, key: string): Option<nat>
  {
    var pre := VersionPrefix(file);
    if |key| > |pre| && key[..|pre|] == pre && AllDigits(key[|pre|..])
       && NatToString(DigitsValue(key[|pre|..])) == key[|pre|..]
    then Some(DigitsValue(key[|pre|..]))
    else None
  }

  lemma VersionKeyRoundTrip(file: string, n: nat)
    ensures VersionOfKey(file, VersionKey(file, n)) == Some(n)
  {
    var pre, k := VersionPrefix(file), VersionKey(file, n);
    NatToStringWellFormed(n);
    assert k[..|pre|] == pre;
    assert k[|pre|..] == NatToString(n);
    NatToStringRoundTrip(n);
  }

  lemma VersionOfKeySound(file: string, key: string)
    requires VersionOfKey(file, key).Some?
    ensures key == VersionKey(file, VersionOfKey(file, key).value)
  {
    var pre := VersionPrefix(file);
    assert key == key[..|pre|] + key[|pre|..];
  }

  /** Distinct version numbers give distinct names. */
  lemma VersionKeyInjective(file: string, m: nat, n: nat)
    requires VersionKey(file, m) == VersionKey(file, n)
    ensures m == n
  {
    VersionKeyRoundTrip(file, m);
    VersionKeyRoundTrip(file, n);
  }

  /** The names of the first `m` versions, in the order they are registered. */
  function VersionNames(file: string, m: nat): (names: seq<string>)
    ensures |names| == m
    ensures forall i :: 0 <= i < m ==> names[i] == VersionKey(file, i)
  {
    seq(m, i requires 0 <= i => VersionKey(file, i))
  }

  // ---------------------------------------------------------------------
  // The records of one file's versions (index.js:42-52, 59-61)
  // ---------------------------------------------------------------------

  /** `versions.reverse()`: the walker lists newest first, this is oldest first. */
  function Oldest(walked: seq<RawVersion>): (r: seq<RawVersion>)
    ensures |r| == |walked|
    ensures forall i :: 0 <= i < |walked| ==> r[i] == walked[|walked| - 1 - i]
  {
    seq(|walked|, i requires 0 <= i < |walked| => walked[|walked| - 1 - i])
  }

  /** How many versions are kept as history: all but the newest. */
  function HistoryCount(n: nat): nat
  {
    if n == 0 then 0 else n - 1
  }

  /** `data.commit = {...}; data.version = n`: stamping a parsed record. */
  function Stamp(rec: Record, c: Commit, n: nat): (r: Record)
    ensures r.Keys == rec.Keys + {"commit", "version"}
    ensures r["commit"] == CommitSummary(c) && r["version"] == Num(n)
    ensures forall k :: k in rec && k != "commit" && k != "version" ==> r[k] == rec[k]
  {
    rec["commit" := CommitSummary(c)]["version" := Num(n)]
  }

  /**
   * `versions.reverse().map(...)`: parse every version, oldest first, and
   * stamp it with its commit and its index.  The first version whose
   * frontmatter does not split aborts the whole map.
   */
  function BuildRecords(file: string, oldest: seq<RawVersion>, isUtf8: Utf8Test, matter: Splitter)
    : (r: Result<seq<Record>, Error>)
    ensures r.Failure? ==> r.error == InvalidFrontmatter(file)
    ensures r.Success? ==> |r.value| == |oldest|
    decreases |oldest|
  {
    if oldest == [] then Success([])
    else
      var n := |oldest|;
      var prev := BuildRecords(file, oldest[..n - 1], isUtf8, matter);
      var last := ParseContent(file, oldest[n - 1].blob, isUtf8, matter);
      if prev.Failure? then prev
      else if last.Failure? then Failure(last.error)
      else Success(prev.value + [Stamp(last.value, oldest[n - 1].commit, n - 1)])
  }

  /** The map succeeds exactly when every version parses. */
  lemma {:induction false} BuildRecordsSucceeds(file: string, oldest: seq<RawVersion>, isUtf8: Utf8Test, matter: Splitter)
    ensures BuildRecords(file, oldest, isUtf8, matter).Success? <==>
      forall i :: 0 <= i < |oldest| ==> ParseContent(file, oldest[i].blob, isUtf8, matter).Success?
    decreases |oldest|
  {
    if oldest != [] {
      var n := |oldest|;
      var init := oldest[..n - 1];
      BuildRecordsSucceeds(file, init, isUtf8, matter);
      assert BuildRecords(file, oldest, isUtf8, matter).Success? <==>
        BuildRecords(file, init, isUtf8, matter).Success? &&
        ParseContent(file, oldest[n - 1].blob, isUtf8, matter).Success?;
      if BuildRecords(file, oldest, isUtf8, matter).Success? {
        forall i | 0 <= i < n
          ensures ParseContent(file, oldest[i].blob, isUtf8, matter).Success?
        {
          if i < n - 1 {
            assert init[i] == oldest[i];
          }
        }
      } else if ParseContent(file, oldest[n - 1].blob, isUtf8, matter).Success? {
        var i :| 0 <= i < n - 1 && !ParseContent(file, init[i].blob, isUtf8, matter).Success?;
        assert init[i] == oldest[i];
      }
    }
  }

  /** A successful map is the map of all versions but the last, then the last one stamped. */
  lemma BuildRecordsLast(file: string, oldest: seq<RawVersion>, isUtf8: Utf8Test, matter: Splitter)
    requires BuildRecords(file, oldest, isUtf8, matter).Success? && oldest != []
    ensures var n := |oldest|;
      var prev := BuildRecords(file, oldest[..n - 1], isUtf8, matter);
      var last := ParseContent(file, oldest[n - 1].blob, isUtf8, matter);
      && prev.Success? && last.Success?
      && BuildRecords(file, oldest, isUtf8, matter).value
         == prev.value + [Stamp(last.value, oldest[n - 1].commit, n - 1)]
  {
  }

  /** Record `i` is version `i` of the oldest-first list, parsed and stamped with its commit and `i`. */
  lemma {:induction false} BuildRecordsAt(file: string, oldest: seq<RawVersion>, isUtf8: Utf8Test, matter: Splitter, i: nat)
    requires BuildRecords(file, oldest, isUtf8, matter).Success? && i < |oldest|
    ensures ParseContent(file, oldest[i].blob, isUtf8, matter).Success?
    ensures BuildRecords(file, oldest, isUtf8, matter).value[i] ==
            Stamp(ParseContent(file, oldest[i].blob, isUtf8, matter).value, oldest[i].commit, i)
    decreases |oldest|
  {
    var n := |oldest|;
    var init := oldest[..n - 1];
    BuildRecordsLast(file, oldest, isUtf8, matter);
    var whole := BuildRecords(file, oldest, isUtf8, matter).value;
    var before := BuildRecords(file, init, isUtf8, matter).value;
    var newest := Stamp(ParseContent(file, oldest[n - 1].blob, isUtf8, matter).value, oldest[n - 1].commit, n - 1);
    assert whole == before + [newest];
    if i < n - 1 {
      BuildRecordsAt(file, init, isUtf8, matter, i);
      assert init[i] == oldest[i];
      assert whole[i] == before[i];
    } else {
      assert whole[i] == newest;
    }
  }

  /** Contiguous numbering: record `i` has `version == i` and the commit of version `i`. */
  lemma BuildRecordsNumbered(file: string, oldest: seq<RawVersion>, isUtf8: Utf8Test, matter: Splitter, i: nat)
    requires BuildRecords(file, oldest, isUtf8, matter).Success? && i < |oldest|
    ensures var rec := BuildRecords(file, oldest, isUtf8, matter).value[i];
      && "version" in rec && rec["version"] == Num(i)
      && "commit" in rec && rec["commit"] == CommitSummary(oldest[i].commit)
  {
    BuildRecordsAt(file, oldest, isUtf8, matter, i);
  }

  /** `if (opts.layout) data.layout = opts.layout`: the layout override of a historical version. */
  function Historical(rec: Record, layout: Value): (r: Record)
    ensures r.Keys == if Truthy(layout) then rec.Keys + {"layout"} else rec.Keys
    ensures Truthy(layout) ==> r["layout"] == layout
    ensures forall k :: k in rec && (k != "layout" || !Truthy(layout)) ==> r[k] == rec[k]
  {
    if Truthy(layout) then rec["layout" := layout] else rec
  }

  /** The `versions` list of a file: its first `m` records, each with the layout override. */
  function HistoryList(recs: seq<Record>, layout: Value, m: nat): (h: seq<Value>)
    requires m <= |recs|
    ensures |h| == m
    ensures forall i :: 0 <= i < m ==> h[i] == Obj(Historical(recs[i], layout))
  {
    seq(m, i requires 0 <= i < m => Obj(Historical(recs[i], layout)))
  }

  /** The pseudo-files registered for the first `m` versions. */
  function VersionEntries(file: string, recs: seq<Record>, layout: Value, m: nat): map<string, Record>
    requires m <= |recs|
    decreases m
  {
    if m == 0 then map[]
    else VersionEntries(file, recs, layout, m - 1)[VersionKey(file, m - 1) := Historical(recs[m - 1], layout)]
  }

  /** The registered pseudo-files are exactly the names of versions `0 .. m-1`. */
  lemma {:induction false} VersionEntriesKeys(file: string, recs: seq<Record>, layout: Value, m: nat, k: string)
    requires m <= |recs|
    ensures k in VersionEntries(file, recs, layout, m) <==>
            VersionOfKey(file, k).Some? && VersionOfKey(file, k).value < m
  {
    if m > 0 {
      VersionEntriesKeys(file, recs, layout, m - 1, k);
      VersionKeyRoundTrip(file, m - 1);
      if VersionOfKey(file, k).Some? {
        VersionOfKeySound(file, k);
      }
    }
  }

  /** Version `i` is registered with its own record; a later version never overwrites it. */
  lemma {:induction false} VersionEntriesAt(file: string, recs: seq<Record>, layout: Value, m: nat, i: nat)
    requires i < m <= |recs|
    ensures VersionKey(file, i) in VersionEntries(file, recs, layout, m)
    ensures VersionEntries(file, recs, layout, m)[VersionKey(file, i)] == Historical(recs[i], layout)
  {
    if i < m - 1 {
      VersionEntriesAt(file, recs, layout, m - 1, i);
      if VersionKey(file, m - 1) == VersionKey(file, i) {
        VersionKeyInjective(file, m - 1, i);
      }
    }
  }

  /** No version name is the file's own name. */
  lemma VersionEntriesExcludeFile(file: string, recs: seq<Record>, layout: Value, m: nat)
    requires m <= |recs|
    ensures file !in VersionEntries(file, recs, layout, m)
  {
    VersionEntriesKeys(file, recs, layout, m, file);
    if VersionOfKey(file, file).Some? {
      VersionOfKeySound(file, file);
    }
  }

  /**
   * The matched file's own object after a successful assembly: `versions`
   * is the history list; when there is at least one version, `version` and
   * `commit` describe the newest.
   */
  function FileAfter(obj: Record, walked: seq<RawVersion>, recs: seq<Record>, layout: Value): Record
    requires |recs| == |walked|
  {
    var withHistory := obj["versions" := List(HistoryList(recs, layout, HistoryCount(|walked|)))];
    if |walked| == 0 then withHistory
    else withHistory["version" := Num(|walked| - 1)]["commit" := CommitSummary(walked[0].commit)]
  }

  /** The file object's fields after assembly; every other property is kept. */
  lemma FileAfterFields(obj: Record, walked: seq<RawVersion>, recs: seq<Record>, layout: Value)
    requires |recs| == |walked|
    ensures var f := FileAfter(obj, walked, recs, layout);
      && "versions" in f && f["versions"] == List(HistoryList(recs, layout, HistoryCount(|walked|)))
      && (|walked| >= 1 ==> "version" in f && f["version"] == Num(|walked| - 1))
      && (|walked| >= 1 ==> "commit" in f && f["commit"] == CommitSummary(walked[0].commit))
      && (|walked| == 0 ==> f == obj["versions" := List([])])
      && forall k :: k != "versions" && k != "version" && k != "commit" ==>
           (k in f <==> k in obj) && (k in obj ==> f[k] == obj[k])
  {
  }

  /** The map over the walker's list fails exactly when some walker entry does not parse. */
  lemma BuildRecordsFailsAt(file: string, walked: seq<RawVersion>, isUtf8: Utf8Test, matter: Splitter)
    ensures BuildRecords(file, Oldest(walked), isUtf8, matter).Failure? <==>
      exists i :: 0 <= i < |walked| && ParseContent(file, walked[i].blob, isUtf8, matter).Failure?
  {
    var o := Oldest(walked);
    BuildRecordsSucceeds(file, o, isUtf8, matter);
    if exists i :: 0 <= i < |walked| && ParseContent(file, walked[i].blob, isUtf8, matter).Failure? {
      var i :| 0 <= i < |walked| && ParseContent(file, walked[i].blob, isUtf8, matter).Failure?;
      assert o[|walked| - 1 - i] == walked[i];
    }
    if BuildRecords(file, o, isUtf8, matter).Failure? {
      var j :| 0 <= j < |o| && !ParseContent(file, o[j].blob, isUtf8, matter).Success?;
      assert o[j] == walked[|walked| - 1 - j];
    }
  }

  /** The matched file's own object when a version fails to parse: only `versions = []` happened. */
  function FileAfterFailure(obj: Record): Record
  {
    obj["versions" := List([])]
  }

  /** The registry after assembling `file` from the walker's list `walked` (newest first). */
  function Assembled(files: map<string, Record>, file: string, walked: seq<RawVersion>,
                     layout: Value, isUtf8: Utf8Test, matter: Splitter): (r: map<string, Record>)
    requires file in files
    ensures files.Keys <= r.Keys
  {
    match BuildRecords(file, Oldest(walked), isUtf8, matter)
    case Failure(_) => files[file := FileAfterFailure(files[file])]
    case Success(recs) =>
      files[file := FileAfter(files[file], walked, recs, layout)]
        + VersionEntries(file, recs, layout, HistoryCount(|walked|))
  }

  // ---------------------------------------------------------------------
  // Key order: JavaScript objects list their keys in insertion order
  // ---------------------------------------------------------------------

  ghost predicate NoDuplicates(keys: seq<string>)
  {
    forall i, j :: 0 <= i < j < |keys| ==> keys[i] != keys[j]
  }

  /** `keys` lists the keys of `files`, each once. */
  ghost predicate KeyOrder(keys: seq<string>, files: map<string, Record>)
  {
    && (forall k :: k in keys <==> k in files)
    && NoDuplicates(keys)
  }

  /** The key order after assigning each of `names` in turn. */
  function Inserted(keys: seq<string>, names: seq<string>): (r: seq<string>)
    ensures keys <= r && |r| <= |keys| + |names|
    decreases |names|
  {
    if names == [] then keys
    else
      var p := Inserted(keys, names[..|names| - 1]);
      if names[|names| - 1] in p then p else p + [names[|names| - 1]]
  }

  /**
   * Assigning keys keeps the existing order as a prefix, adds exactly the
   * names not yet present, and lists every key once.
   */
  lemma {:induction false} InsertedOrder(keys: seq<string>, names: seq<string>)
    requires NoDuplicates(keys)
    ensures |Inserted(keys, names)| >= |keys| && Inserted(keys, names)[..|keys|] == keys
    ensures forall k :: k in Inserted(keys, names) <==> k in keys || k in names
    ensures NoDuplicates(Inserted(keys, names))
    decreases |names|
  {
    if names != [] {
      var init, last := names[..|names| - 1], names[|names| - 1];
      InsertedOrder(keys, init);
      var p := Inserted(keys, init);
      assert names == init + [last];
      if last !in p {
        assert (p + [last])[..|keys|] == p[..|keys|];
      }
    }
  }

  /** The key order after assembling `file`. */
  function AssembledOrder(keys: seq<string>, file: string, walked: seq<RawVersion>,
                          isUtf8: Utf8Test, matter: Splitter): (r: seq<string>)
    ensures keys <= r && |r| <= |keys| + HistoryCount(|walked|)
    ensures BuildRecords(file, Oldest(walked), isUtf8, matter).Failure? ==> r == keys
  {
    match BuildRecords(file, Oldest(walked), isUtf8, matter)
    case Failure(_) => keys
    case Success(_) => Inserted(keys, VersionNames(file, HistoryCount(|walked|)))
  }

  // ---------------------------------------------------------------------
  // What the assembly promises
  // ---------------------------------------------------------------------

  /** On success the registry is the updated file object plus the registered versions. */
  lemma AssembledSuccess(files: map<string, Record>, file: string, walked: seq<RawVersion>,
                         layout: Value, isUtf8: Utf8Test, matter: Splitter)
    requires file in files
    requires BuildRecords(file, Oldest(walked), isUtf8, matter).Success?
    ensures var recs := BuildRecords(file, Oldest(walked), isUtf8, matter).value;
      var m := HistoryCount(|walked|);
      && file !in VersionEntries(file, recs, layout, m)
      && Assembled(files, file, walked, layout, isUtf8, matter)
         == files[file := FileAfter(files[file], walked, recs, layout)] + VersionEntries(file, recs, layout, m)
      && Assembled(files, file, walked, layout, isUtf8, matter)[file] == FileAfter(files[file], walked, recs, layout)
  {
    var recs := BuildRecords(file, Oldest(walked), isUtf8, matter).value;
    VersionEntriesExcludeFile(file, recs, layout, HistoryCount(|walked|));
  }

  /**
   * The newest version becomes current: `files[file].version` is `n-1` and
   * `files[file].commit` summarises the walker's first entry; the name
   * `file_versions/v(n-1)` is not registered by the assembly.
   */
  lemma AssembledCurrent(files: map<string, Record>, file: string, walked: seq<RawVersion>,
                         layout: Value, isUtf8: Utf8Test, matter: Splitter)
    requires file in files && |walked| >= 1
    requires BuildRecords(file, Oldest(walked), isUtf8, matter).Success?
    ensures var r := Assembled(files, file, walked, layout, isUtf8, matter);
      var newest := VersionKey(file, |walked| - 1);
      && "version" in r[file] && r[file]["version"] == Num(|walked| - 1)
      && "commit" in r[file] && r[file]["commit"] == CommitSummary(walked[0].commit)
      && (newest in r <==> newest in files)
      && (newest in files ==> r[newest] == files[newest])
  {
    var recs := BuildRecords(file, Oldest(walked), isUtf8, matter).value;
    var n := |walked|;
    var r := Assembled(files, file, walked, layout, isUtf8, matter);
    var newest := VersionKey(file, n - 1);
    AssembledSuccess(files, file, walked, layout, isUtf8, matter);
    FileAfterFields(files[file], walked, recs, layout);
    VersionKeyRoundTrip(file, n - 1);
    AssembledFrame(files, file, walked, layout, isUtf8, matter, newest);
  }

  /**
   * The history: `files[file].versions` lists exactly the `n-1` older
   * versions, oldest first, and entry `i` is the very record registered
   * under `file_versions/v<i>`.
   */
  lemma AssembledHistory(files: map<string, Record>, file: string, walked: seq<RawVersion>,
                         layout: Value, isUtf8: Utf8Test, matter: Splitter)
    requires file in files
    requires BuildRecords(file, Oldest(walked), isUtf8, matter).Success?
    ensures var r := Assembled(files, file, walked, layout, isUtf8, matter);
      var m := HistoryCount(|walked|);
      && "versions" in r[file] && r[file]["versions"].List? && |r[file]["versions"].items| == m
      && forall i :: 0 <= i < m ==>
           VersionKey(file, i) in r && r[file]["versions"].items[i] == Obj(r[VersionKey(file, i)])
  {
    var recs := BuildRecords(file, Oldest(walked), isUtf8, matter).value;
    var m := HistoryCount(|walked|);
    var r := Assembled(files, file, walked, layout, isUtf8, matter);
    var x, e := files[file := FileAfter(files[file], walked, recs, layout)], VersionEntries(file, recs, layout, m);
    AssembledSuccess(files, file, walked, layout, isUtf8, matter);
    FileAfterFields(files[file], walked, recs, layout);
    forall i | 0 <= i < m
      ensures VersionKey(file, i) in r && r[VersionKey(file, i)] == Historical(recs[i], layout)
    {
      VersionEntriesAt(file, recs, layout, m, i);
      UnionFrame(x, e, VersionKey(file, i));
    }
  }

  /**
   * A historical record built from version `v` numbered `i`: the frontmatter
   * (none for binary content), then `contents`, `commit` and `version` set
   * over any frontmatter keys of those names, then `layout` when the
   * override is truthy.
   */
  lemma HistoricalRecordFields(file: string, v: RawVersion, i: nat, layout: Value,
                               isUtf8: Utf8Test, matter: Splitter)
    requires ParseContent(file, v.blob, isUtf8, matter).Success?
    ensures var rec := Historical(Stamp(ParseContent(file, v.blob, isUtf8, matter).value, v.commit, i), layout);
      var plugin := {"contents", "commit", "version"} + (if Truthy(layout) then {"layout"} else {});
      && "version" in rec && rec["version"] == Num(i)
      && "commit" in rec && rec["commit"] == CommitSummary(v.commit)
      && (Truthy(layout) ==> "layout" in rec && rec["layout"] == layout)
      && (!isUtf8(v.blob.content) ==>
            && rec.Keys == plugin
            && rec["contents"] == Bytes(v.blob.content))
      && (isUtf8(v.blob.content) ==>
            && matter(v.blob.content).Some?
            && var s := matter(v.blob.content).value;
            && rec.Keys == s.data.Keys + plugin
            && rec["contents"] == Bytes(s.content)
            && forall k :: k in s.data && k !in plugin ==> rec[k] == s.data[k])
  {
    if isUtf8(v.blob.content) {
      ParseContentText(file, v.blob, isUtf8, matter);
    }
  }

  /** Historical version `i` is the walker's entry `n-1-i`, numbered `i`, registered under its name. */
  lemma AssembledRecord(files: map<string, Record>, file: string, walked: seq<RawVersion>,
                        layout: Value, isUtf8: Utf8Test, matter: Splitter, i: nat)
    requires file in files && i < HistoryCount(|walked|)
    requires BuildRecords(file, Oldest(walked), isUtf8, matter).Success?
    ensures var r := Assembled(files, file, walked, layout, isUtf8, matter);
      var v := walked[|walked| - 1 - i];
      && ParseContent(file, v.blob, isUtf8, matter).Success?
      && VersionKey(file, i) in r
      && r[VersionKey(file, i)]
         == Historical(Stamp(ParseContent(file, v.blob, isUtf8, matter).value, v.commit, i), layout)
  {
    var recs := BuildRecords(file, Oldest(walked), isUtf8, matter).value;
    var m := HistoryCount(|walked|);
    AssembledSuccess(files, file, walked, layout, isUtf8, matter);
    VersionEntriesAt(file, recs, layout, m, i);
    BuildRecordsAt(file, Oldest(walked), isUtf8, matter, i);
  }

  /**
   * What the assembly leaves alone in the registry: the only keys added are
   * version names below `n-1`, and every other key but `file` keeps its
   * entry (a key that is a version name is overwritten).
   */
  lemma AssembledFrame(files: map<string, Record>, file: string, walked: seq<RawVersion>,
                       layout: Value, isUtf8: Utf8Test, matter: Splitter, k: string)
    requires file in files
    ensures var r := Assembled(files, file, walked, layout, isUtf8, matter);
      var m := if BuildRecords(file, Oldest(walked), isUtf8, matter).Success? then HistoryCount(|walked|) else 0;
      var named := VersionOfKey(file, k).Some? && VersionOfKey(file, k).value < m;
      && (k in r <==> k in files || named)
      && (k in files && k != file && !named ==> r[k] == files[k])
  {
    var b := BuildRecords(file, Oldest(walked), isUtf8, matter);
    var r := Assembled(files, file, walked, layout, isUtf8, matter);
    if b.Success? {
      var recs, m := b.value, HistoryCount(|walked|);
      var x, e := files[file := FileAfter(files[file], walked, recs, layout)], VersionEntries(file, recs, layout, m);
      AssembledSuccess(files, file, walked, layout, isUtf8, matter);
      assert r == x + e;
      VersionEntriesKeys(file, recs, layout, m, k);
      UnionFrame(x, e, k);
      assert k in x <==> k in files || k == file;
      assert k in files && k != file ==> x[k] == files[k];
    } else {
      assert r == files[file := FileAfterFailure(files[file])];
    }
  }

  /** A key of a union is a key of either side; one the right side lacks keeps the left side's value. */
  lemma UnionFrame<K, V>(x: map<K, V>, e: map<K, V>, k: K)
    ensures k in x + e <==> k in x || k in e
    ensures k in x && k !in e ==> (x + e)[k] == x[k]
    ensures k in e ==> (x + e)[k] == e[k]
  {
  }

  /**
   * What the assembly leaves alone in the file object: every property but
   * `versions`, `version` and `commit`, so the current version never gets
   * the layout override.
   */
  lemma AssembledKeepsProperties(files: map<string, Record>, file: string, walked: seq<RawVersion>,
                                 layout: Value, isUtf8: Utf8Test, matter: Splitter, k: string)
    requires file in files && k != "versions" && k != "version" && k != "commit"
    ensures var r := Assembled(files, file, walked, layout, isUtf8, matter);
      && (k in r[file] <==> k in files[file])
      && (k in files[file] ==> r[file][k] == files[file][k])
  {
    var b := BuildRecords(file, Oldest(walked), isUtf8, matter);
    if b.Success? {
      AssembledSuccess(files, file, walked, layout, isUtf8, matter);
      FileAfterFields(files[file], walked, b.value, layout);
    }
  }

  /**
   * Failure: when any version's frontmatter does not split, `files[file]`
   * ends with `versions == []`, and nothing else in the registry changes.
   * A file without versions ends the same way.
   */
  lemma AssembledWithoutHistory(files: map<string, Record>, file: string, walked: seq<RawVersion>,
                                layout: Value, isUtf8: Utf8Test, matter: Splitter)
    requires file in files
    requires |walked| == 0 ||
             exists i :: 0 <= i < |walked| && isUtf8(walked[i].blob.content) && matter(walked[i].blob.content).None?
    ensures Assembled(files, file, walked, layout, isUtf8, matter) == files[file := files[file]["versions" := List([])]]
  {
    if |walked| == 0 {
      assert VersionEntries(file, [], layout, 0) == map[];
    } else {
      var i :| 0 <= i < |walked| && isUtf8(walked[i].blob.content) && matter(walked[i].blob.content).None?;
      assert Oldest(walked)[|walked| - 1 - i] == walked[i];
      BuildRecordsSucceeds(file, Oldest(walked), isUtf8, matter);
    }
  }
}
