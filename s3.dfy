/** The key mapping of `S3RemoteFs` (rust/cubestore/src/remotefs/s3.rs):
    remote paths become bucket keys under an optional sub-path, and keys
    listed from the bucket are mapped back by removing that sub-path.
    The bucket, the local directory and the clock are not modelled; the
    listing the bucket returns and the RFC 3339 parser are parameters. */
module S3 {
  import opened Wrappers

  /** The characters with a meaning in a regular expression of the `regex`
      crate outside a character class. */
  predicate IsRegexMeta(c: char) {
    c in {'\\', '.', '+', '*', '?', '(', ')', '|', '[', ']', '{', '}', '^', '$'}
  }

  predicate NoRegexMeta(s: string) {
    forall i :: 0 <= i < |s| ==> !IsRegexMeta(s[i])
  }

  function SubPathOrEmpty(subPath: Option<string>): string {
    match subPath
    case Some(p) => p
    case None => ""
  }

  /** A pattern `^prefix` whose prefix has no metacharacters matches only
      the literal prefix at the start, and replacing that one match with
      the empty string removes it. */
  function StripPrefix(prefix: string, key: string): (r: string)
    ensures prefix <= key ==> prefix + r == key
    ensures !(prefix <= key) ==> r == key
  {
    if prefix <= key then key[|prefix|..] else key
  }

  datatype S3Object = S3Object(key: string, lastModified: string)

  /** One page of the bucket's answer to a list request. */
  datatype ListBucketResult = ListBucketResult(contents: seq<S3Object>)

  datatype RemoteFile = RemoteFile(remotePath: string, updated: int)

  datatype ListError = InvalidTimestamp(lastModified: string)

  datatype S3RemoteFs = S3RemoteFs(subPath: Option<string>) {

    /** `s3_path`: the sub-path (or nothing), a slash, then the remote path. */
    function S3Path(remotePath: string): (r: string)
      ensures subPath.None? ==> r == "/" + remotePath
      ensures subPath.Some? ==> r == subPath.value + "/" + remotePath
    {
      SubPathOrEmpty(subPath) + "/" + remotePath
    }

    /** The key prefix that every upload key starts with. */
    function Root(): string {
      S3Path("")
    }

    /** The prefix sent with a list request for `remotePrefix`. */
    function ListRequestPrefix(remotePrefix: string): string {
      S3Path(remotePrefix)
    }

    /** `list_with_metadata`'s mapping of one listed object. */
    function ToRemoteFile(o: S3Object, parseRfc3339: string -> Option<int>): Result<RemoteFile, ListError> {
      match parseRfc3339(o.lastModified)
      case Some(t) => Ok(RemoteFile(StripPrefix(Root(), o.key), t))
      case None => Err(InvalidTimestamp(o.lastModified))
    }

    /** The objects of a listing, mapped in order and stopping at the first
        one whose timestamp does not parse. */
    function ToRemoteFiles(objects: seq<S3Object>, parseRfc3339: string -> Option<int>): (r: Result<seq<RemoteFile>, ListError>)
      ensures r.Ok? <==> forall k :: 0 <= k < |objects| ==> parseRfc3339(objects[k].lastModified).Some?
      ensures r.Ok? ==> |r.value| == |objects|
      ensures r.Ok? ==> forall k :: 0 <= k < |objects| ==>
        r.value[k] == RemoteFile(StripPrefix(Root(), objects[k].key), parseRfc3339(objects[k].lastModified).value)
      ensures r.Err? ==> exists k :: (0 <= k < |objects| && parseRfc3339(objects[k].lastModified).None? &&
        (forall j :: 0 <= j < k ==> parseRfc3339(objects[j].lastModified).Some?) &&
        r.error == InvalidTimestamp(objects[k].lastModified))
    {
      if objects == [] then Ok([])
      else
        match ToRemoteFile(objects[0], parseRfc3339)
        case Err(e) => Err(e)
        case Ok(f) =>
          (match ToRemoteFiles(objects[1..], parseRfc3339)
           case Ok(rest) => Ok([f] + rest)
           case Err(e) => Err(e))
    }

    /** `list_with_metadata`, given the pages the bucket returned for
        `ListRequestPrefix(remotePrefix)`. The anchored pattern is built from
        `Root()`, so it is taken literally only when that has no
        metacharacters. */
    function ListWithMetadata(pages: seq<ListBucketResult>, parseRfc3339: string -> Option<int>): (r: Result<seq<RemoteFile>, ListError>)
      requires NoRegexMeta(Root())
      ensures r.Ok? ==> |r.value| == |Objects(pages)|
    {
      ToRemoteFiles(Objects(pages), parseRfc3339)
    }

    /** `list`: the remote paths of `list_with_metadata`. */
    function List(pages: seq<ListBucketResult>, parseRfc3339: string -> Option<int>): (r: Result<seq<string>, ListError>)
      requires NoRegexMeta(Root())
      ensures r.Ok? <==> ListWithMetadata(pages, parseRfc3339).Ok?
      ensures r.Ok? ==> |r.value| == |Objects(pages)|
    {
      var files :- ListWithMetadata(pages, parseRfc3339);
      Ok(seq(|files|, k requires 0 <= k < |files| => files[k].remotePath))
    }
  }

  /** The objects of all pages, page by page. */
  function Objects(pages: seq<ListBucketResult>): (r: seq<S3Object>)
    ensures pages == [] ==> r == []
  {
    if pages == [] then [] else Objects(pages[..|pages| - 1]) + pages[|pages| - 1].contents
  }

  // ---------------------------------------------------------------------
  // Properties
  // ---------------------------------------------------------------------

  /** Every key starts with the key of the empty path, followed by the
      remote path itself. */
  lemma S3PathExtendsRoot(fs: S3RemoteFs, p: string)
    ensures fs.S3Path(p) == fs.Root() + p
    ensures fs.Root() <= fs.S3Path(p)
  {
    assert fs.S3Path(p) == SubPathOrEmpty(fs.subPath) + "/" + p;
    assert fs.Root() == SubPathOrEmpty(fs.subPath) + "/";
  }

  /** Listing maps an upload key back to the remote path it was made from. */
  lemma StripS3Path(fs: S3RemoteFs, p: string)
    ensures StripPrefix(fs.Root(), fs.S3Path(p)) == p
  {
    S3PathExtendsRoot(fs, p);
    assert fs.S3Path(p)[|fs.Root()|..] == p;
  }

  /** A key outside the sub-path is returned as it is. */
  lemma StripLeavesForeignKeys(fs: S3RemoteFs, key: string)
    requires !(fs.Root() <= key)
    ensures StripPrefix(fs.Root(), key) == key
  {
  }

  /** Only the first, anchored occurrence is removed: with no sub-path,
      `//a` lists as `/a`. */
  lemma StripOnlyOnce()
    ensures StripPrefix(S3RemoteFs(None).Root(), "//a") == "/a"
  {
    assert S3RemoteFs(None).Root() == "/";
    assert "/" <= "//a";
  }

  /** Distinct remote paths have distinct keys. */
  lemma S3PathInjective(fs: S3RemoteFs, p: string, q: string)
    requires fs.S3Path(p) == fs.S3Path(q)
    ensures p == q
  {
    StripS3Path(fs, p);
    StripS3Path(fs, q);
  }

  /** When every listed key lies under the key of the request prefix, as
      the bucket's prefix listing guarantees, every remote path returned
      starts with the requested remote prefix. */
  lemma ListedPathsKeepPrefix(fs: S3RemoteFs, remotePrefix: string, pages: seq<ListBucketResult>,
                              parseRfc3339: string -> Option<int>)
    requires NoRegexMeta(fs.Root())
    requires forall o :: o in Objects(pages) ==> fs.ListRequestPrefix(remotePrefix) <= o.key
    ensures fs.ListWithMetadata(pages, parseRfc3339).Ok? ==>
      forall f :: f in fs.ListWithMetadata(pages, parseRfc3339).value ==> remotePrefix <= f.remotePath
  {
    var objects := Objects(pages);
    var r := fs.ListWithMetadata(pages, parseRfc3339);
    if r.Ok? {
      forall f | f in r.value
        ensures remotePrefix <= f.remotePath
      {
        var k :| 0 <= k < |r.value| && r.value[k] == f;
        var key := objects[k].key;
        assert objects[k] in objects;
        S3PathExtendsRoot(fs, remotePrefix);
        assert fs.Root() + remotePrefix <= key;
        assert f.remotePath == key[|fs.Root()|..];
        assert key[|fs.Root()|..][..|remotePrefix|] == remotePrefix;
      }
    }
  }

  /** A listing of the keys of `paths`, all with valid timestamps, lists
      exactly `paths`, in order. */
  lemma ListRoundTrip(fs: S3RemoteFs, paths: seq<string>, pages: seq<ListBucketResult>,
                      parseRfc3339: string -> Option<int>)
    requires NoRegexMeta(fs.Root())
    requires |Objects(pages)| == |paths|
    requires forall k :: 0 <= k < |paths| ==> Objects(pages)[k].key == fs.S3Path(paths[k])
    requires forall o :: o in Objects(pages) ==> parseRfc3339(o.lastModified).Some?
    ensures fs.List(pages, parseRfc3339) == Ok(paths)
  {
    var objects := Objects(pages);
    forall k | 0 <= k < |objects|
      ensures parseRfc3339(objects[k].lastModified).Some?
    {
      assert objects[k] in objects;
    }
    var files := fs.ListWithMetadata(pages, parseRfc3339).value;
    forall k | 0 <= k < |paths|
      ensures files[k].remotePath == paths[k]
    {
      StripS3Path(fs, paths[k]);
    }
    assert fs.List(pages, parseRfc3339).value == paths;
  }

  /** `list` succeeds exactly when `list_with_metadata` does, with the same
      number of entries, in the same order. */
  lemma ListIsProjection(fs: S3RemoteFs, pages: seq<ListBucketResult>, parseRfc3339: string -> Option<int>)
    requires NoRegexMeta(fs.Root())
    ensures fs.List(pages, parseRfc3339).Ok? <==> fs.ListWithMetadata(pages, parseRfc3339).Ok?
    ensures fs.List(pages, parseRfc3339).Ok? ==>
      |fs.List(pages, parseRfc3339).value| == |fs.ListWithMetadata(pages, parseRfc3339).value| &&
      forall k :: 0 <= k < |fs.List(pages, parseRfc3339).value| ==>
        fs.List(pages, parseRfc3339).value[k] == fs.ListWithMetadata(pages, parseRfc3339).value[k].remotePath
    ensures fs.List(pages, parseRfc3339).Err? ==>
      fs.List(pages, parseRfc3339).error == fs.ListWithMetadata(pages, parseRfc3339).error
  {
  }
}
