/** What an atomic file replacement leaves behind (crates/storage/src/atomic_file.rs). */
module AtomicFile {
  /** The rename and the final directory sync fail separately: an error from the sync is
      reported although the new contents are already in place. */
  datatype WriteOutcome = Synced | Refused | Unsynced

  function After<T>(before: T, contents: T, outcome: WriteOutcome): T {
    if outcome.Refused? then before else contents
  }
}
