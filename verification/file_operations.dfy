/** The reclaim primitive: `FileOperationsService` owns the filesystem and removes a
    file only after checking that it exists and that nobody else holds it open. */
module FileOperations {
  import opened Common
  import opened FileSystem

  class FileOperationsService {
    /** The filesystem the service acts on. */
    var fs: Fs
    /** What has been sent to the recycle bin, oldest first. */
    var recycleBin: seq<Removal>

    ghost predicate Valid()
      reads this
    {
      WellFormed(fs)
    }

    constructor (initial: Fs)
      requires WellFormed(initial)
      ensures Valid() && fs == initial && recycleBin == []
    {
      fs := initial;
      recycleBin := [];
    }

    /** `IsFileInUseAsync`: opens the file for exclusive reading and reports whether that failed
        with an I/O error; any other error propagates. */
    method IsFileInUse(f: FileRef) returns (r: Outcome<bool>)
      ensures r == Done(false) <==> OpenExclusive(fs, f) == Opened
      ensures r == Done(true) <==> OpenExclusive(fs, f) == NotFound || OpenExclusive(fs, f) == Shared
      ensures r.Threw? ==> r.error == UnauthorizedAccess(FullName(f)) && !IsIOException(r.error)
    {
      var attempt := OpenExclusive(fs, f);
      if attempt == Opened {
        r := Done(false);
      } else if attempt == Denied {
        r := Threw(UnauthorizedAccess(FullName(f)));
      } else {
        r := Done(true);
      }
    }

    /** The part `MoveToRecycleBinAsync` and `DeletePermanentlyAsync` share: the existence
        and in-use guards, with every exception turned into `false`. */
    method Guard(f: FileRef) returns (proceed: bool)
      ensures proceed <==> OpenExclusive(fs, f) == Opened
      ensures proceed ==> Removable(fs, Removal(f, Lookup(fs, f).value))
    {
      if !FileExists(fs, f) {
        return false;
      }
      var inUse := IsFileInUse(f);
      match inUse
      case Threw(_) => proceed := false;
      case Done(b) => proceed := !b;
    }

    /** `MoveToRecycleBinAsync`: a missing or in-use file is left alone and gives `false`;
        otherwise the file leaves its directory for the recycle bin and the result is `true`. */
    method MoveToRecycleBin(f: FileRef) returns (ok: bool)
      requires Valid()
      modifies this
      ensures Valid()
      ensures ok <==> OpenExclusive(old(fs), f) == Opened
      ensures ok ==> Removable(old(fs), Removal(f, Lookup(old(fs), f).value))
      ensures ok ==> fs == RemoveFile(old(fs), f) && recycleBin == old(recycleBin) + [Removal(f, Lookup(old(fs), f).value)]
      ensures !ok ==> fs == old(fs) && recycleBin == old(recycleBin)
    {
      ok := Guard(f);
      if ok {
        var entry := Lookup(fs, f).value;
        RemoveFileWellFormed(fs, f);
        fs := RemoveFile(fs, f);
        recycleBin := recycleBin + [Removal(f, entry)];
      }
    }

    /** `DeletePermanentlyAsync`: the same guards; the file is removed without a copy
        in the recycle bin. */
    method DeletePermanently(f: FileRef) returns (ok: bool)
      requires Valid()
      modifies this
      ensures Valid()
      ensures ok <==> OpenExclusive(old(fs), f) == Opened
      ensures ok ==> fs == RemoveFile(old(fs), f)
      ensures !ok ==> fs == old(fs)
      ensures recycleBin == old(recycleBin)
    {
      ok := Guard(f);
      if ok {
        RemoveFileWellFormed(fs, f);
        fs := RemoveFile(fs, f);
      }
    }
  }
}
