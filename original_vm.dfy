/** The first Tkinter front end, `original_vm.py`. Its simulator class is
    the class of `vm_simulator.py` line for line, so it is modelled once, as
    `VmSimulator.PageReplacementAlgorithm`; what this file adds is the
    `run_simulation` handler that guards a run and turns failures into
    error dialogs. */
module OriginalVm {
  import opened FrameTable
  import Lru
  import Belady
  import VmSimulator

  /** What `run_simulation` ends with: the empty-sequence dialog, the
      "Simulation error" dialog, or the results handed to the plots. */
  datatype Outcome =
    | InvalidSequence
    | SimulationError
    | Simulated(faults: nat, finalState: seq<int>, history: seq<StepRecord>)

  /** `run_simulation` on an already parsed frame count and reference
      string: an empty string is refused before any object is built; with
      no frame at all (a count of zero or less gives an empty frame list)
      the first reference faults on full frames with nothing to evict and
      the run raises, which the handler reports; otherwise a fresh
      simulator runs LRU when "LRU" is selected and Optimal for any other
      selection, and the results are those of the canonical run. */
  method RunSimulation(frames: int, pageSequence: seq<int>, algorithm: string) returns (outcome: Outcome)
    requires ValidSequence(pageSequence)
    ensures |pageSequence| == 0 <==> outcome == InvalidSequence
    ensures |pageSequence| > 0 && frames <= 0 <==> outcome == SimulationError
    ensures |pageSequence| > 0 && frames > 0 && algorithm == "LRU" ==>
              var h := Lru.History(frames, pageSequence);
              outcome == Simulated(FaultCount(h), Lru.After(frames, pageSequence, |pageSequence|).frames, h)
    ensures |pageSequence| > 0 && frames > 0 && algorithm != "LRU" ==>
              var h := Belady.History(frames, pageSequence, Belady.AfterCurrent);
              outcome == Simulated(FaultCount(h), Belady.After(frames, pageSequence, |pageSequence|, Belady.AfterCurrent), h)
  {
    if |pageSequence| == 0 {
      return InvalidSequence;
    }
    if frames <= 0 {
      // The frame list is empty: the first reference is absent from it,
      // there is no free slot, and choosing a victim fails.
      return SimulationError;
    }
    var simulator := new VmSimulator.PageReplacementAlgorithm(frames);
    var faults, finalState, history;
    if algorithm == "LRU" {
      faults, finalState, history := simulator.LruReplace(pageSequence);
    } else {
      faults, finalState, history := simulator.OptimalReplace(pageSequence);
    }
    outcome := Simulated(faults, finalState[..], history);
  }
}
