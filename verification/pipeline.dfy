/** `time_sync_and_stage3_download` up to the move of the verified archive:
    fetch the autobuilds index, pick the latest release folder, list its
    stage3 files, download them all, verify the first signature, and move
    the archive it certifies into the target. Everything outside the
    program's own logic is a field of `Env`. */
module Pipeline {
  import opened Results
  import opened Strings
  import opened Timestamp
  import opened Latest
  import opened Anchors
  import opened Signature
  import opened Fetch

  /** The collaborators of one run. */
  datatype Env = Env(
    respond: string -> Response,           // the server's response to a GET of a URL
    join: (string, string) -> string,      // urljoin
    tokenize: string -> seq<StartTag>,     // the start tags HTMLParser reports for a page
    download: (string, string) -> bool,    // urlretrieve(url, file) completes
    gpgVerify: string -> bool,             // gpg --verify ./file exits 0
    remove: string -> bool,                // rm -rf file exits 0
    moveToTarget: string -> bool)          // mv ./file /mnt/gentoo exits 0

  const AutobuildsUrl: string := "https://distfiles.gentoo.org/releases/amd64/autobuilds"

  /** The download loop: each file is fetched from `base + file`, in list
      order; the first failure aborts the run. */
  function DownloadAll(files: seq<string>, base: string, download: (string, string) -> bool): (r: Result<seq<string>>)
    ensures r.Ok? <==> forall i :: 0 <= i < |files| ==> download(base + files[i], files[i])
    ensures r.Ok? ==> |r.value| == |files| && forall i :: 0 <= i < |files| ==> r.value[i] == base + files[i]
    ensures r.Err? ==> exists i :: 0 <= i < |files| && !download(base + files[i], files[i])
                                   && r.error == DownloadFailed(base + files[i])
                                   && forall j :: 0 <= j < i ==> download(base + files[j], files[j])
  {
    if |files| == 0 then Ok([])
    else if !download(base + files[0], files[0]) then Err(DownloadFailed(base + files[0]))
    else
      var rest :- DownloadAll(files[1..], base, download);
      assert forall i :: 1 <= i < |files| ==> files[i] == files[1..][i - 1];
      Ok([base + files[0]] + rest)
  }

  /** The folder listener's output, once known to be non-empty, always has
      a latest element: the caller's emptiness check and the timestamp
      filter together make `find_latest_timestamp` total. */
  lemma FolderLinksHaveLatest(tags: seq<StartTag>)
    requires FolderLinks(tags).Ok? && |FolderLinks(tags).value| > 0
    ensures FindLatest(FolderLinks(tags).value).Ok?
  {
    FolderLinksSpec(tags);
  }

  /** What lines 227-239 establish: the index page's final URL, the latest
      release folder named on it, and the stage3 files listed in that
      folder. */
  datatype Listing = Listing(indexUrl: string, latest: string, files: seq<string>)

  /** Fetch the index, pick the latest release folder, fetch its listing and
      keep the stage3 names; both emptiness checks raise. */
  function ReleaseListing(env: Env, fuel: nat): (r: Result<Listing>)
    ensures r.Ok? ==> |r.value.files| > 0 && IsValid(r.value.latest)
    ensures r.Err? ==> !r.error.BadTimestamp? && r.error != NoTimestamps
  {
    var index :- FetchPage(AutobuildsUrl, env.respond, env.join, fuel);
    var folders :- FolderLinks(env.tokenize(index.body));
    if |folders| == 0 then Err(NoReleaseFolders)
    else
      FolderLinksHaveLatest(env.tokenize(index.body));
      var latest := FindLatest(folders).value;
      var listing :- FetchPage(env.join(index.url, latest), env.respond, env.join, fuel);
      var files :- FileLinks(env.tokenize(listing.body));
      if |files| == 0 then Err(NoArchives)
      else Ok(Listing(index.url, latest, files))
  }

  /** A listing is produced only after every step succeeded: the index was
      fetched and listed release folders, `latest` is the latest of them,
      the folder page was fetched from `urljoin(index url, latest)`, and the
      files are exactly the stage3 names on it. */
  lemma ReleaseListingSteps(env: Env, fuel: nat)
    ensures ReleaseListing(env, fuel).Ok? ==>
            var l := ReleaseListing(env, fuel).value;
            var index := FetchPage(AutobuildsUrl, env.respond, env.join, fuel);
            index.Ok? && index.value.url == l.indexUrl &&
            var folders := FolderLinks(env.tokenize(index.value.body));
            folders.Ok? && |folders.value| > 0 && FindLatest(folders.value) == Ok(l.latest) &&
            var listing := FetchPage(env.join(l.indexUrl, l.latest), env.respond, env.join, fuel);
            listing.Ok? && FileLinks(env.tokenize(listing.value.body)) == Ok(l.files)
  {
    if ReleaseListing(env, fuel).Ok? {
      var index := FetchPage(AutobuildsUrl, env.respond, env.join, fuel);
      assert index.Ok?;
      var folders := FolderLinks(env.tokenize(index.value.body));
      assert folders.Ok? && |folders.value| > 0;
      FolderLinksHaveLatest(env.tokenize(index.value.body));
      var latest := FindLatest(folders.value).value;
      var listing := FetchPage(env.join(index.value.url, latest), env.respond, env.join, fuel);
      assert listing.Ok?;
      var files := FileLinks(env.tokenize(listing.value.body));
      assert files.Ok? && |files.value| > 0;
      assert ReleaseListing(env, fuel) == Ok(Listing(index.value.url, latest, files.value));
    }
  }

  /** One run with at most `fuel` requests per page fetch, yielding the name
      of the verified archive now in the target directory. */
  function Run(env: Env, fuel: nat): (r: Result<string>)
    ensures r.Ok? ==> env.gpgVerify(r.value + SignatureSuffix) && env.remove(r.value + SignatureSuffix)
                      && env.moveToTarget(r.value)
    ensures r.Err? && r.error.MoveFailed? ==> env.gpgVerify(r.error.file + SignatureSuffix)
    ensures r.Err? ==> !r.error.BadTimestamp? && r.error != NoTimestamps
  {
    match ReleaseListing(env, fuel)
    case Err(e) => Err(e)
    case Ok(l) =>
      match DownloadAll(l.files, l.indexUrl + "/" + l.latest + "/", env.download)
      case Err(e) => Err(e)
      case Ok(_) =>
        match VerifyStage3(l.files, env.gpgVerify, env.remove)
        case Err(e) => Err(e)
        case Ok(archive) => if !env.moveToTarget(archive) then Err(MoveFailed(archive)) else Ok(archive)
  }

  /** A successful run listed the latest release (see `ReleaseListingSteps`),
      downloaded every listed file from the root URL plus the folder name,
      and returns the archive certified by the first signature of that
      listing, which gpg and `rm` accepted before the move. */
  lemma RunSucceedsOnlyAfterEveryStep(env: Env, fuel: nat)
    ensures Run(env, fuel).Ok? ==>
            ReleaseListing(env, fuel).Ok? &&
            var l := ReleaseListing(env, fuel).value;
            DownloadAll(l.files, l.indexUrl + "/" + l.latest + "/", env.download).Ok? &&
            VerifyStage3(l.files, env.gpgVerify, env.remove) == Ok(Run(env, fuel).value) &&
            FirstSignature(l.files).Some? &&
            l.files[FirstSignature(l.files).value] == Run(env, fuel).value + SignatureSuffix &&
            env.moveToTarget(Run(env, fuel).value)
  {
    if Run(env, fuel).Ok? {
      var l := ReleaseListing(env, fuel).value;
      var v := VerifyStage3(l.files, env.gpgVerify, env.remove);
      assert v == Ok(Run(env, fuel).value);
      var i :| 0 <= i < |l.files| && l.files[i] == v.value + SignatureSuffix
               && forall j :: 0 <= j < i ==> !EndsWith(l.files[j], SignatureSuffix);
      FirstSignatureUnique(l.files, i);
    }
  }

  /** When gpg accepts no file at all, no run yields an archive. */
  lemma NoArchiveWithoutVerification(env: Env, fuel: nat)
    requires forall f :: !env.gpgVerify(f)
    ensures Run(env, fuel).Err?
  {
  }
}
