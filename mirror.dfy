/** The document mirror: the `rename` callback handed to the static-copy
    step, which decides where the `.md` copy of each content document goes
    in the build output. */
module DocumentMirror {
  import opened Wrappers
  import opened Text

  /** The content root every mirrored document lives under. */
  const ContentRoot: string := "src/content/docs/"

  /** The file name marking a folder's landing document. */
  const IndexName: string := "index"

  /** Why a path cannot be mirrored: without the content root,
      `split(ContentRoot)[1]` is `undefined` and the following `.replace`
      throws. */
  datatype RenameError = NoContentRoot

  /** `pat` occurs somewhere in `s`. */
  predicate Contains(s: string, pat: string)
  {
    exists k :: 0 <= k <= |s| && MatchAt(s, pat, k)
  }

  /** Path segments as a normalised path produces them: none empty, none
      holding a slash. */
  predicate PlainSegments(segments: seq<string>)
  {
    forall i :: 0 <= i < |segments| ==> segments[i] != "" && '/' !in segments[i]
  }

  /** `path.replace(new RegExp("\\." + ext + "$"), "")`: drops a final
      `.ext`, and leaves a path without it unchanged. */
  function StripExtension(path: string, ext: string): (r: string)
    ensures EndsWith(path, "." + ext) ==> r + "." + ext == path
    ensures !EndsWith(path, "." + ext) ==> r == path
  {
    if EndsWith(path, "." + ext) then path[..|path| - |ext| - 1] else path
  }

  /** The destination chosen for the document `fileName` whose path below
      the content root, without extension, has the given segments. */
  function MirrorPath(fileName: string, segments: seq<string>): (r: string)
    requires |segments| >= 1
    ensures EndsWith(r, ".md")
  {
    if fileName == IndexName then
      if |segments| == 1 then "index.md"
      else
        var directories := Join(segments[..|segments| - 2], "/");
        var folderName := segments[|segments| - 2];
        if directories != "" then directories + "/" + folderName + ".md"
        else folderName + ".md"
    else
      var directories := Join(segments[..|segments| - 1], "/");
      if directories != "" then directories + "/" + fileName + ".md"
      else fileName + ".md"
  }

  /** The `rename` callback: `fullPath` is the normalised, slash-separated
      path of the source file. It fails exactly when the content root does
      not occur in the path, and every destination it gives ends in `.md`. */
  function Rename(fileName: string, fileExtension: string, fullPath: string)
    : (r: Result<string, RenameError>)
    ensures r.Failure? <==> !Contains(fullPath, ContentRoot)
    ensures r.Success? ==> EndsWith(r.value, ".md")
  {
    match SecondPiece(fullPath, ContentRoot)
    case None => Failure(NoContentRoot)
    case Some(afterRoot) =>
      var relativePath := StripExtension(afterRoot, fileExtension);
      Success(MirrorPath(fileName, Split(relativePath, '/')))
  }

  // ---------------------------------------------------------------------
  // the mapping, stated over segments

  /** A folder's landing document `d1/…/dk/F/index` goes to `d1/…/dk/F.md`,
      and to `F.md` when there is no directory above `F`. */
  lemma MirrorIndexFolder(dirs: seq<string>, folder: string, last: string)
    requires PlainSegments(dirs + [folder])
    ensures MirrorPath(IndexName, dirs + [folder, last]) == Join(dirs + [folder], "/") + ".md"
  {
    var segments := dirs + [folder, last];
    assert segments[..|segments| - 2] == dirs;
    if dirs != [] {
      assert dirs[|dirs| - 1] == (dirs + [folder])[|dirs| - 1];
      JoinNonEmpty(dirs, "/");
      JoinAppendOne(dirs, folder, "/");
    }
  }

  /** Any other document `d1/…/dk/x` goes to `d1/…/dk/{fileName}.md`, and to
      `{fileName}.md` when it has no directory. */
  lemma MirrorDocument(dirs: seq<string>, fileName: string, last: string)
    requires fileName != IndexName
    requires PlainSegments(dirs)
    ensures MirrorPath(fileName, dirs + [last]) == Join(dirs + [fileName], "/") + ".md"
  {
    var segments := dirs + [last];
    assert segments[..|segments| - 1] == dirs;
    if dirs != [] {
      JoinNonEmpty(dirs, "/");
      JoinAppendOne(dirs, fileName, "/");
    }
  }

  /** The mapping is not one-to-one: the document `d/n` and the landing
      document `d/n/index` share the destination `d/n.md`. */
  lemma MirrorCollision(dirs: seq<string>, name: string)
    requires name != IndexName
    requires PlainSegments(dirs + [name])
    ensures MirrorPath(name, dirs + [name]) == MirrorPath(IndexName, dirs + [name, IndexName])
  {
    MirrorIndexFolder(dirs, name, IndexName);
    MirrorDocument(dirs, name, name);
  }

  /** `guides/setup/index` goes to `guides/setup.md`. */
  lemma MirrorExampleIndex()
    ensures MirrorPath(IndexName, ["guides", "setup", "index"]) == "guides/setup.md"
  {
    MirrorIndexFolder(["guides"], "setup", "index");
  }

  /** `guides/setup/intro` goes to `guides/setup/intro.md`. */
  lemma MirrorExampleDocument()
    ensures MirrorPath("intro", ["guides", "setup", "intro"]) == "guides/setup/intro.md"
  {
    MirrorDocument(["guides", "setup"], "intro", "intro");
    assert ["guides", "setup"] + ["intro"] == ["guides", "setup", "intro"];
    assert Join(["guides", "setup"], "/") == "guides/setup";
    assert ["guides", "setup", "intro"][..2] == ["guides", "setup"];
  }

  // ---------------------------------------------------------------------
  // from full paths to segments

  lemma StripExtensionOfSuffixed(q: string, ext: string)
    ensures StripExtension(q + "." + ext, ext) == q
  {
    var p := q + "." + ext;
    assert p[|p| - |"." + ext|..] == "." + ext;
  }

  /** No proper prefix of the content root is also a suffix of it, so two
      occurrences of it can never overlap. */
  lemma ContentRootHasNoBorder(n: nat)
    requires 0 < n < |ContentRoot|
    ensures ContentRoot[..n] != ContentRoot[|ContentRoot| - n..]
  {
    var m := |ContentRoot| - n;
    assert ContentRoot[..n][0] == 's';
    if n == 2 {
      assert ContentRoot[m..][1] == '/';
      assert ContentRoot[..n][1] == 'r';
    } else {
      assert ContentRoot[m..][0] == ContentRoot[m];
      assert ContentRoot[m] != 's';
    }
  }

  /** When neither the part before it nor the part after it contains the
      content root, the content root occurs in `prefix + ContentRoot + rest`
      only where it was put. */
  lemma OccursOnlyBetween(prefix: string, rest: string)
    requires !Contains(prefix, ContentRoot) && !Contains(rest, ContentRoot)
    ensures forall k :: k != |prefix| ==> !MatchAt(prefix + ContentRoot + rest, ContentRoot, k)
  {
    forall k | k != |prefix| ensures !MatchAt(prefix + ContentRoot + rest, ContentRoot, k) {
      NoOtherMatch(prefix, rest, k);
    }
  }

  lemma NoOtherMatch(prefix: string, rest: string, k: int)
    requires !Contains(prefix, ContentRoot) && !Contains(rest, ContentRoot)
    requires k != |prefix|
    ensures !MatchAt(prefix + ContentRoot + rest, ContentRoot, k)
  {
    var s := prefix + ContentRoot + rest;
    var p, n := |prefix|, |ContentRoot|;
    if k < 0 || k + n > |s| {
    } else if k + n <= p {
      NoMatchInPrefix(prefix, rest, k);
    } else if k < p {
      NoMatchAcrossStart(prefix, rest, k);
    } else if k < p + n {
      NoMatchAcrossEnd(prefix, rest, k);
    } else {
      NoMatchInRest(prefix, rest, k);
    }
  }

  lemma NoMatchInPrefix(prefix: string, rest: string, k: int)
    requires !Contains(prefix, ContentRoot)
    requires 0 <= k && k + |ContentRoot| <= |prefix|
    ensures !MatchAt(prefix + ContentRoot + rest, ContentRoot, k)
  {
    var s := prefix + ContentRoot + rest;
    assert s[k..k + |ContentRoot|] == prefix[k..k + |ContentRoot|];
    assert !MatchAt(prefix, ContentRoot, k);
  }

  lemma NoMatchAcrossStart(prefix: string, rest: string, k: int)
    requires 0 <= k < |prefix| < k + |ContentRoot|
    ensures !MatchAt(prefix + ContentRoot + rest, ContentRoot, k)
  {
    var s := prefix + ContentRoot + rest;
    var p, n := |prefix|, |ContentRoot|;
    if k + n <= |s| {
      var m := k + n - p;
      ContentRootHasNoBorder(m);
      assert s[p..p + n] == ContentRoot;
      assert s[p..k + n] == s[p..p + n][..m];
      assert s[p..k + n] == s[k..k + n][p - k..];
    }
  }

  lemma NoMatchAcrossEnd(prefix: string, rest: string, k: int)
    requires |prefix| < k < |prefix| + |ContentRoot|
    ensures !MatchAt(prefix + ContentRoot + rest, ContentRoot, k)
  {
    var s := prefix + ContentRoot + rest;
    var p, n := |prefix|, |ContentRoot|;
    if k + n <= |s| {
      var m := p + n - k;
      ContentRootHasNoBorder(m);
      assert s[p..p + n] == ContentRoot;
      assert s[k..p + n] == s[p..p + n][k - p..];
      assert s[k..p + n] == s[k..k + n][..m];
    }
  }

  lemma NoMatchInRest(prefix: string, rest: string, k: int)
    requires !Contains(rest, ContentRoot)
    requires |prefix| + |ContentRoot| <= k
    ensures !MatchAt(prefix + ContentRoot + rest, ContentRoot, k)
  {
    var s := prefix + ContentRoot + rest;
    var p, n := |prefix|, |ContentRoot|;
    if k + n <= |s| {
      assert s[k..k + n] == rest[k - p - n..k - p];
      assert !MatchAt(rest, ContentRoot, k - p - n);
    }
  }

  /** A document `prefix + ContentRoot + d1/…/dk.ext` is mirrored by the
      segment rule applied to `d1, …, dk`, provided the content root occurs
      nowhere else in its path. */
  lemma RenameOfDocument(fileName: string, ext: string, prefix: string, segments: seq<string>)
    requires |segments| >= 1 && forall i :: 0 <= i < |segments| ==> '/' !in segments[i]
    requires !Contains(prefix, ContentRoot)
    requires !Contains(Join(segments, "/") + "." + ext, ContentRoot)
    ensures Rename(fileName, ext, prefix + ContentRoot + (Join(segments, "/") + "." + ext))
            == Success(MirrorPath(fileName, segments))
  {
    var rel := Join(segments, "/");
    var rest := rel + "." + ext;
    OccursOnlyBetween(prefix, rest);
    RenameAfterRoot(fileName, ext, prefix, rest);
    StripExtensionOfSuffixed(rel, ext);
    SplitJoin(segments, '/');
  }

  /** With a single occurrence of the content root, renaming works on the
      text after it. */
  lemma RenameAfterRoot(fileName: string, ext: string, prefix: string, rest: string)
    requires forall k :: k != |prefix| ==> !MatchAt(prefix + ContentRoot + rest, ContentRoot, k)
    ensures Rename(fileName, ext, prefix + ContentRoot + rest)
            == Success(MirrorPath(fileName, Split(StripExtension(rest, ext), '/')))
  {
    SecondPieceOfSingle(prefix, ContentRoot, rest);
  }

  /** The landing document at the content root goes to exactly `index.md`. */
  lemma RenameRootIndex(ext: string, prefix: string)
    requires !Contains(prefix, ContentRoot)
    requires !Contains(IndexName + "." + ext, ContentRoot)
    ensures Rename(IndexName, ext, prefix + ContentRoot + (IndexName + "." + ext)) == Success("index.md")
  {
    assert '/' !in IndexName;
    RenameOfDocument(IndexName, ext, prefix, [IndexName]);
  }
}
