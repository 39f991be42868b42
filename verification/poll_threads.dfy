/** What the two poll threads have in common. */
module PollThreads {

  /** Whether there is a thread (it is joinable), and whether it has been told to stop. */
  datatype Thread = Thread(running: bool, stop: bool)

  /** One mark for each kind of data. */
  datatype Kinds = Kinds(joints: bool, handState: bool, tactile: bool)

  const STOPPED: Thread := Thread(false, true)

  /** EnsurePollStarted: a thread that is there is left alone. */
  function Started(t: Thread): Thread {
    if t.running then t else Thread(true, false)
  }

  predicate Any(k: Kinds) {
    k.joints || k.handState || k.tactile
  }
}
