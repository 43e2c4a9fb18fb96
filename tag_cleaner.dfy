/** The cleanup part of `main` (main.go:81-156) once the tags are listed:
    load the allowlist, announce the deletion count, then run the deletion
    loop.  The tag listing, the allowlist file and the delete outcomes are
    inputs; the confirmation prompt is taken as answered. */
module TagCleaner {
  import opened GoStrings
  import opened Allowlist
  import opened Deletion

  /** How a run ends: fatally, because the named allowlist file could not be
      read, or after the loop with the figures it reports. */
  datatype Outcome =
    | AllowlistUnreadable(path: string)
    | Finished(announced: nat, successes: nat, failures: nat, deleted: seq<string>, pauses: nat)

  /** The allowlist a run uses when its file can be read (or none is named). */
  function AllowlistOf(path: string, file: FileRead): seq<string>
    requires path != [] ==> file.Read?
  {
    if path == [] then [] else CleanLines(SplitLines(file.content))
  }

  /** main.go:87-149.  A read error on a named allowlist file ends the run
      before any delete; otherwise no listed tag whose ID is an allowlist
      entry is deleted, a dry run deletes nothing, and the counters account
      for every delete issued. */
  method Cleanup(tags: seq<string>, allowlistPath: string, file: FileRead, dryRun: bool, deleteSucceeds: nat -> bool)
    returns (r: Outcome)
    ensures r.AllowlistUnreadable? <==> allowlistPath != [] && file.ReadFailed?
    ensures r.AllowlistUnreadable? ==> r.path == allowlistPath
    ensures r.Finished? ==>
      var allowlist := AllowlistOf(allowlistPath, file);
      && r.announced == AnnouncedDeletions(|tags|, allowlist)
      && r.deleted == (if dryRun then [] else Deletable(tags, allowlist))
      && (forall t | t in r.deleted :: t in tags && t !in allowlist)
      && r.successes == SucceededCalls(deleteSucceeds, |r.deleted|)
      && r.successes + r.failures == |r.deleted|
      && r.pauses == |r.deleted|
  {
    var loaded := LoadAllowlist(allowlistPath, file);
    match loaded
    case Unreadable(path) =>
      r := AllowlistUnreadable(path);
    case Entries(allowlist) =>
      var announced := AnnouncedDeletions(|tags|, allowlist);
      var successes, failures, deleted, pauses := RunDeletions(tags, allowlist, dryRun, deleteSucceeds);
      r := Finished(announced, successes, failures, deleted, pauses);
  }
}
