/** `verify_stage3_file`: pick the first detached signature among the
    downloaded files, check it with gpg, delete it, and name the archive it
    certifies. The gpg run and the `rm` run are abstract pass/fail oracles,
    modelling `run(..., throw_on_failure=True)` as if it executed the
    command line it is given. */
module Signature {
  import opened Results
  import opened Strings
  import opened Anchors

  /** The archive a signature certifies: `file[:-4]`. */
  function ArchiveName(sig: string): (r: string)
    requires EndsWith(sig, SignatureSuffix)
    ensures r + SignatureSuffix == sig
  {
    sig[..|sig| - 4]
  }

  /** The index of the first entry ending in `.asc`, if any. */
  function FirstSignature(files: seq<string>): (r: Option<nat>)
    ensures r.None? <==> forall i :: 0 <= i < |files| ==> !EndsWith(files[i], SignatureSuffix)
    ensures r.Some? ==> r.value < |files| && EndsWith(files[r.value], SignatureSuffix)
                        && forall j :: 0 <= j < r.value ==> !EndsWith(files[j], SignatureSuffix)
  {
    if |files| == 0 then None
    else if EndsWith(files[0], SignatureSuffix) then Some(0)
    else match FirstSignature(files[1..])
      case None => None
      case Some(k) => Some(k + 1)
  }

  /** `verify_stage3_file(files)`, with `gpgVerify(f)` for `gpg --verify ./f`
      exiting 0 and `remove(f)` for `rm -rf f` exiting 0. */
  function VerifyStage3(files: seq<string>, gpgVerify: string -> bool, remove: string -> bool): (r: Result<string>)
    ensures r == Err(NoSignature) <==> forall i :: 0 <= i < |files| ==> !EndsWith(files[i], SignatureSuffix)
    ensures r.Ok? ==> exists i :: 0 <= i < |files| && files[i] == r.value + SignatureSuffix
                                  && gpgVerify(files[i]) && remove(files[i])
                                  && forall j :: 0 <= j < i ==> !EndsWith(files[j], SignatureSuffix)
    ensures r.Err? && r.error.VerificationFailed? ==>
              FirstSignature(files).Some? && files[FirstSignature(files).value] == r.error.file
              && !gpgVerify(r.error.file)
    ensures r.Err? && r.error.RemoveFailed? ==>
              FirstSignature(files).Some? && files[FirstSignature(files).value] == r.error.file
              && gpgVerify(r.error.file) && !remove(r.error.file)
    ensures r.Err? ==> r.error.NoSignature? || r.error.VerificationFailed? || r.error.RemoveFailed?
  {
    match FirstSignature(files)
    case None => Err(NoSignature)
    case Some(k) =>
      var sig := files[k];
      if !gpgVerify(sig) then Err(VerificationFailed(sig))
      else if !remove(sig) then Err(RemoveFailed(sig))
      else Ok(ArchiveName(sig))
  }

  /** Entries after the first signature play no part: verification decides
      on the prefix ending at that signature. */
  lemma VerifyIgnoresLaterEntries(files: seq<string>, k: nat, rest: seq<string>,
                                  gpgVerify: string -> bool, remove: string -> bool)
    requires k < |files| && EndsWith(files[k], SignatureSuffix)
    requires forall j :: 0 <= j < k ==> !EndsWith(files[j], SignatureSuffix)
    ensures VerifyStage3(files[..k + 1] + rest, gpgVerify, remove) == VerifyStage3(files, gpgVerify, remove)
  {
    var g := files[..k + 1] + rest;
    assert g[k] == files[k];
    assert forall j :: 0 <= j < k ==> g[j] == files[j];
    FirstSignatureUnique(g, k);
    FirstSignatureUnique(files, k);
  }

  lemma FirstSignatureUnique(files: seq<string>, k: nat)
    requires k < |files| && EndsWith(files[k], SignatureSuffix)
    requires forall j :: 0 <= j < k ==> !EndsWith(files[j], SignatureSuffix)
    ensures FirstSignature(files) == Some(k)
  {
  }

  /** A failed gpg check of the chosen signature never yields an archive
      name, whatever the rest of the list holds. */
  lemma RejectedSignatureYieldsNothing(files: seq<string>, gpgVerify: string -> bool, remove: string -> bool)
    requires FirstSignature(files).Some? && !gpgVerify(files[FirstSignature(files).value])
    ensures VerifyStage3(files, gpgVerify, remove) == Err(VerificationFailed(files[FirstSignature(files).value]))
  {
  }
}
