/** The per-file step the cleaners share: move a file to the recycle bin and learn how many
    bytes that freed. Two orders occur in the cleaners. `MoveThenReadLength` is the order in
    which a `FileInfo` is created before the move but its `Length` is first read after it;
    `FileInfo` loads its data lazily, so that read sees the filesystem without the file.
    `ReadLengthThenMove` reads the size first. */
module Reclaim {
  import opened Common
  import opened FileSystem
  import opened FileOperations

  /** After a successful move the file's length can no longer be read, although it could
      be read just before. */
  lemma LengthGoneAfterMove(fs: Fs, f: FileRef)
    requires OpenExclusive(fs, f) == Opened
    ensures FileLength(fs, f) == Some(Lookup(fs, f).value.size)
    ensures FileLength(RemoveFile(fs, f), f) == None
  {
    RemovedFileIsGone(fs, f);
  }

  /** `new FileInfo(f)`, then the move, then `Length` on success: a successful move always
      ends in `FileNotFoundException` from the length read. */
  method MoveThenReadLength(fileOps: FileOperationsService, f: FileRef) returns (moved: bool, size: Outcome<nat>)
    requires fileOps.Valid()
    modifies fileOps
    ensures fileOps.Valid()
    ensures moved <==> OpenExclusive(old(fileOps.fs), f) == Opened
    ensures moved ==> Removable(old(fileOps.fs), Removal(f, Lookup(old(fileOps.fs), f).value))
    ensures moved ==> fileOps.fs == RemoveFile(old(fileOps.fs), f) &&
                      fileOps.recycleBin == old(fileOps.recycleBin) + [Removal(f, Lookup(old(fileOps.fs), f).value)]
    ensures !moved ==> fileOps.fs == old(fileOps.fs) && fileOps.recycleBin == old(fileOps.recycleBin)
    ensures moved ==> size == Threw(FileNotFound(FullName(f)))
  {
    size := Done(0);
    moved := fileOps.MoveToRecycleBin(f);
    if moved {
      LengthGoneAfterMove(old(fileOps.fs), f);
      size := match FileLength(fileOps.fs, f)
        case None => Threw(FileNotFound(FullName(f)))
        case Some(n) => Done(n);
    }
  }

  /** The size is read before the move, so a successful move reports the bytes it freed. */
  method ReadLengthThenMove(fileOps: FileOperationsService, f: FileRef) returns (moved: bool, size: Outcome<nat>)
    requires fileOps.Valid()
    modifies fileOps
    ensures fileOps.Valid()
    ensures moved <==> OpenExclusive(old(fileOps.fs), f) == Opened
    ensures moved ==> Removable(old(fileOps.fs), Removal(f, Lookup(old(fileOps.fs), f).value))
    ensures moved ==> fileOps.fs == RemoveFile(old(fileOps.fs), f) &&
                      fileOps.recycleBin == old(fileOps.recycleBin) + [Removal(f, Lookup(old(fileOps.fs), f).value)]
    ensures !moved ==> fileOps.fs == old(fileOps.fs) && fileOps.recycleBin == old(fileOps.recycleBin)
    ensures moved ==> size == Done(Lookup(old(fileOps.fs), f).value.size)
  {
    size := match FileLength(fileOps.fs, f)
      case None => Threw(FileNotFound(FullName(f)))
      case Some(n) => Done(n);
    moved := fileOps.MoveToRecycleBin(f);
  }
}
