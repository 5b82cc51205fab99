/** The process-wide `IndexStatus` record: a cancel flag and the offset the
    message source is asked to skip. */
module Session {

  datatype IndexStatus = IndexStatus(cancel: bool, current: int)

  /** The status at process start. */
  const Initial := IndexStatus(false, 0)

  /** A run clears the cancel flag before it does anything else. */
  function BeginRun(s: IndexStatus): (r: IndexStatus)
    ensures !r.cancel && r.current == s.current
  {
    s.(cancel := false)
  }

  /** The `/cancel` command: raise the flag, leave the offset alone. */
  function RequestCancel(s: IndexStatus): (r: IndexStatus)
    ensures r.cancel && r.current == s.current
  {
    s.(cancel := true)
  }

  /** A cancel requested while no run is active is forgotten by the next
      run, and requesting it twice is the same as once. */
  lemma CancelBeforeRunIsForgotten(s: IndexStatus)
    ensures BeginRun(RequestCancel(s)) == BeginRun(s)
    ensures RequestCancel(RequestCancel(s)) == RequestCancel(s)
  {
  }
}
