/** SimpleTimerService: a running flag and an elapsed-seconds accumulator. */
module Timer {

  class SimpleTimerService {
    /** IsRunning */
    var isRunning: bool
    /** Elapsed, in seconds (a float in the game, a real here). */
    var elapsed: real

    constructor ()
      ensures !isRunning && elapsed == 0.0
    {
      isRunning := false;
      elapsed := 0.0;
    }

    /** Start(): only the running flag changes. */
    method Start()
      modifies this
      ensures isRunning && elapsed == old(elapsed)
    {
      isRunning := true;
    }

    /** Stop(): only the running flag changes. */
    method Stop()
      modifies this
      ensures !isRunning && elapsed == old(elapsed)
    {
      isRunning := false;
    }

    /** Reset(): stopped, with nothing elapsed. */
    method Reset()
      modifies this
      ensures !isRunning && elapsed == 0.0
    {
      isRunning := false;
      elapsed := 0.0;
    }

    /** Tick(deltaSeconds): accumulates only while running; with a
        non-negative delta the elapsed time never goes down. */
    method Tick(deltaSeconds: real)
      modifies this
      ensures isRunning == old(isRunning)
      ensures old(isRunning) ==> elapsed == old(elapsed) + deltaSeconds
      ensures !old(isRunning) ==> elapsed == old(elapsed)
      ensures deltaSeconds >= 0.0 ==> elapsed >= old(elapsed)
    {
      if !isRunning {
        return;
      }
      elapsed := elapsed + deltaSeconds;
    }
  }
}
