/** `CleaningOptions`: which cleaners a cleaning run asks for, and three advanced settings.
    No cleaner reads `daysForOldFiles` or `moveToRecycleBin`: the old-files cleaner takes its
    age threshold from its own constructor, and every cleaner moves files to the recycle bin. */
module Options {

  datatype CleaningOptions = CleaningOptions(
    includeTemporaryFiles: bool,
    includeLogFiles: bool,
    includeEventLogs: bool,
    includeOldFiles: bool,
    includeBrowserHistory: bool,
    includeBrowserCookies: bool,
    includeDnsTempFiles: bool,
    daysForOldFiles: int,
    moveToRecycleBin: bool,
    showProgress: bool)

  /** A default-constructed options object: every category on, a 30-day threshold, and
      recycling and progress reporting on. */
  function Defaults(): (o: CleaningOptions)
    ensures o.includeTemporaryFiles && o.includeLogFiles && o.includeEventLogs && o.includeOldFiles
    ensures o.includeBrowserHistory && o.includeBrowserCookies && o.includeDnsTempFiles
    ensures o.daysForOldFiles == 30 && o.moveToRecycleBin && o.showProgress
  {
    CleaningOptions(true, true, true, true, true, true, true, 30, true, true)
  }
}
