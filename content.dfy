/**
 * `parseContent` (index.js:126-147): turns a blob into a record the way
 * metalsmith reads a source file.  A blob that is valid UTF-8 has its
 * frontmatter split off; the frontmatter keys become the record and the body
 * becomes `contents`.  Any other blob is kept as raw bytes in `contents`.
 *
 * The UTF-8 test (the `is-utf8` package, validity as in section 4 of
 * RFC 3629) and the frontmatter splitter (the `gray-matter` package) are
 * collaborators whose code is not part of this model: they are parameters.
 */
module Content {
  import opened Values

  /** What the frontmatter splitter returns: the metadata and the body. */
  datatype Split = Split(data: Record, content: seq<byte>)

  /** The errors `parseContent` can raise. */
  datatype Error =
    | InvalidFrontmatter(path: string)  // the error the code means to raise
    | ReferenceError(name: string)      // JavaScript's error for an unbound name

  /** The UTF-8 validity test the plugin applies to a blob's bytes. */
  type Utf8Test = seq<byte> -> bool

  /**
   * The frontmatter splitter applied to a blob's text: `None` when it throws
   * on a malformed metadata block.  Decoding the bytes to a string and
   * re-encoding the body to a Buffer are folded into it.
   */
  type Splitter = seq<byte> -> Option<Split>

  /**
   * `parseContent` as the code evidently intends it: a frontmatter failure
   * raises `InvalidFrontmatter` naming the file.  The name of the file is a
   * parameter, since the code running it has one in scope at its call site.
   */
  function ParseContent(file: string, blob: Blob, isUtf8: Utf8Test, matter: Splitter): (r: Result<Record, Error>)
    // it fails exactly when the blob is text and its frontmatter does not split
    ensures r.Failure? <==> isUtf8(blob.content) && matter(blob.content).None?
    ensures r.Failure? ==> r.error == InvalidFrontmatter(file)
    // binary content passes through byte for byte, with no metadata
    ensures r.Success? && !isUtf8(blob.content) ==>
      r.value.Keys == {"contents"} && r.value["contents"] == Bytes(blob.content)
  {
    if isUtf8(blob.content) then
      match matter(blob.content)
      case None => Failure(InvalidFrontmatter(file))
      case Some(parsed) => Success(parsed.data["contents" := Bytes(parsed.content)])
    else
      Success(map["contents" := Bytes(blob.content)])
  }

  /**
   * Text content: every frontmatter key is copied into the record, then the
   * body becomes `contents`, overwriting a frontmatter key of that name.
   */
  lemma ParseContentText(file: string, blob: Blob, isUtf8: Utf8Test, matter: Splitter)
    requires isUtf8(blob.content) && matter(blob.content).Some?
    ensures var r := ParseContent(file, blob, isUtf8, matter);
      var s := matter(blob.content).value;
      && r.Success?
      && r.value.Keys == s.data.Keys + {"contents"}
      && r.value["contents"] == Bytes(s.content)
      && forall k :: k in s.data && k != "contents" ==> r.value[k] == s.data[k]
  {
  }

  /**
   * `parseContent` as written: its catch block builds its message from
   * `file`, a name bound only in the plugin callback (index.js:35), not in
   * `parseContent`.  Reading an unbound name throws a ReferenceError, which
   * replaces the `invalid_frontmatter` error.
   */
  function ParseContentAsWritten(blob: Blob, isUtf8: Utf8Test, matter: Splitter): (r: Result<Record, Error>)
    ensures r.Failure? <==> isUtf8(blob.content) && matter(blob.content).None?
    ensures r.Failure? ==> r.error == ReferenceError("file")
  {
    if isUtf8(blob.content) then
      match matter(blob.content)
      case None => Failure(ReferenceError("file"))
      case Some(parsed) => Success(parsed.data["contents" := Bytes(parsed.content)])
    else
      Success(map["contents" := Bytes(blob.content)])
  }

  /** The two versions agree on every blob they accept and fail on the same blobs. */
  lemma AsWrittenAgreesOnSuccess(file: string, blob: Blob, isUtf8: Utf8Test, matter: Splitter)
    ensures ParseContentAsWritten(blob, isUtf8, matter).Success? ==
            ParseContent(file, blob, isUtf8, matter).Success?
    ensures ParseContentAsWritten(blob, isUtf8, matter).Success? ==>
            ParseContentAsWritten(blob, isUtf8, matter) == ParseContent(file, blob, isUtf8, matter)
  {
  }

  /**
   * A text blob whose frontmatter block is malformed YAML: the flow sequence
   * opened after `a:` is never closed, so the frontmatter parser throws.
   */
  function MalformedFrontmatter(): Blob
  {
    // "---\na: [\n---\n"
    Blob("7b43a5152e557bdb69e52309a374e18bc8188904", [45, 45, 45, 10, 97, 58, 32, 91, 10, 45, 45, 45, 10])
  }

  /**
   * The discrepancy on a concrete input: on that blob, with a splitter that
   * rejects it as the frontmatter parser does, the code as written raises a
   * ReferenceError, not the `invalid_frontmatter` error the code builds.
   */
  lemma AsWrittenRaisesReferenceError()
    ensures ParseContentAsWritten(MalformedFrontmatter(), _ => true, _ => None)
            == Failure(ReferenceError("file"))
    ensures ParseContent("index.md", MalformedFrontmatter(), _ => true, _ => None)
            == Failure(InvalidFrontmatter("index.md"))
  {
  }

  // ---------------------------------------------------------------------
  // Loose-object path (index.js:131-132)
  // ---------------------------------------------------------------------

  function Min(a: nat, b: nat): nat
  {
    if a <= b then a else b
  }

  /** `sha.slice(0, 2)`: JavaScript's slice clamps its bounds to the string. */
  function ObjectDirSegment(sha: string): (d: string)
    ensures d <= sha
    ensures |sha| >= 2 ==> |d| == 2
    ensures |sha| < 2 ==> d == sha
  {
    sha[..Min(2, |sha|)]
  }

  /** `sha.slice(2)`: everything after the first two characters. */
  function ObjectFileSegment(sha: string): (f: string)
    ensures ObjectDirSegment(sha) + f == sha
    ensures |f| == |sha| - Min(2, |sha|)
  {
    sha[Min(2, |sha|)..]
  }

  /**
   * The path components of Git's loose object file for `sha` under the
   * repository directory `gitdir`: `<gitdir>/objects/<sha[0..2]>/<sha[2..]>`.
   * Joining them with `path.join` is not modelled.
   */
  function LooseObjectPath(gitdir: string, sha: string): (p: seq<string>)
    ensures |p| == 4 && p[0] == gitdir && p[1] == "objects"
    ensures p[2] + p[3] == sha
    ensures |sha| >= 2 ==> |p[2]| == 2
  {
    [gitdir, "objects", ObjectDirSegment(sha), ObjectFileSegment(sha)]
  }

  /** Distinct objects of one repository have distinct object files. */
  lemma ObjectPathInjective(gitdir: string, a: string, b: string)
    requires LooseObjectPath(gitdir, a) == LooseObjectPath(gitdir, b)
    ensures a == b
  {
    var p, q := LooseObjectPath(gitdir, a), LooseObjectPath(gitdir, b);
    assert a == p[2] + p[3] && b == q[2] + q[3];
  }
}
