/**
 When is an address done with?  (`ApplicationThread.run`, `all_2thprints_done`, `locked_delete_from_dict`)

 Application threads of two kinds finish for a Bluetooth Classic address: each takes the lock of its own success
 map, marks the address there, looks in both maps - in the other one without its lock - and, if the address is in
 both, deletes it from `btc_bdaddrs` if it is there.  The log reader and the worker that revives a deprioritized
 address add and delete addresses at any time.  Every read, write and lock operation is a step of its own, and the
 steps of any number of threads interleave freely.
 */
module LauncherCompletion {
  type Address = string

  datatype Kind = Lmp | Sdp

  /** Where a thread is in its success branch; `all_2thprints_done` reads the SDP map first. */
  datatype Pc =
    | Start | Locked | Marked
    | SawSdp | AllDone | NotDone
    | AddressesLocked | Found | Gone | AddressesReleased
    | Finished

  datatype Worker = Worker(kind: Kind, address: Address, pc: Pc)

  /**
   The shared dictionaries as sets of keys, and two histories: the addresses an application thread deleted, or found
   deleted, while both marks were set, and those added while both marks were set.
   */
  datatype State = State(
    workers: seq<Worker>,
    lmp: set<Address>, sdp: set<Address>, btc: set<Address>,
    clearedAfterBoth: set<Address>, addedAfterBoth: set<Address>)

  /** `reprioritize_btc_bdaddr` adds to `btc_bdaddrs` under the BLE lock, so nothing here holds it back. */
  datatype Step =
    | Go(worker: nat)
    | LogAdds(address: Address)
    | LogDeletes(address: Address)
    | Reprioritizes(address: Address)

  predicate BothMarked(s: State, a: Address) {
    a in s.lmp && a in s.sdp
  }

  /** Holding the success lock of its kind; Python's `with` releases it on the way to Finished. */
  predicate HoldsSuccess(w: Worker, k: Kind) {
    w.kind == k && w.pc != Start && w.pc != Finished
  }

  predicate HoldsAddresses(w: Worker) {
    w.pc == AddressesLocked || w.pc == Found || w.pc == Gone
  }

  predicate Possible(s: State, step: Step) {
    match step
    case Reprioritizes(_) => true
    case LogAdds(_) => forall i :: 0 <= i < |s.workers| ==> !HoldsAddresses(s.workers[i])
    case LogDeletes(_) => forall i :: 0 <= i < |s.workers| ==> !HoldsAddresses(s.workers[i])
    case Go(i) =>
      && i < |s.workers| && s.workers[i].pc != Finished
      && (s.workers[i].pc == Start ==>
            forall j :: 0 <= j < |s.workers| ==> !HoldsSuccess(s.workers[j], s.workers[i].kind))
      && (s.workers[i].pc == AllDone ==> forall j :: 0 <= j < |s.workers| ==> !HoldsAddresses(s.workers[j]))
  }

  function NextPc(s: State, w: Worker): Pc {
    match w.pc
    case Start => Locked
    case Locked => Marked
    case Marked => if w.address in s.sdp then SawSdp else NotDone
    case SawSdp => if w.address in s.lmp then AllDone else NotDone
    case NotDone => Finished
    case AllDone => AddressesLocked
    case AddressesLocked => if w.address in s.btc then Found else Gone
    case Found => Gone
    case Gone => AddressesReleased
    case AddressesReleased => Finished
    case Finished => Finished
  }

  function Add(s: State, a: Address): State {
    s.(btc := s.btc + {a}, addedAfterBoth := if BothMarked(s, a) then s.addedAfterBoth + {a} else s.addedAfterBoth)
  }

  /** This step deletes the address, or finds it deleted. */
  predicate Clears(s: State, w: Worker) {
    w.pc == Found || (w.pc == AddressesLocked && w.address !in s.btc)
  }

  function Take(s: State, step: Step): State
    requires Possible(s, step)
  {
    match step
    case LogDeletes(a) => s.(btc := s.btc - {a})
    case LogAdds(a) => Add(s, a)
    case Reprioritizes(a) => Add(s, a)
    case Go(i) =>
      var w := s.workers[i];
      var s' := s.(workers := s.workers[i := w.(pc := NextPc(s, w))]);
      if w.pc == Locked then
        if w.kind.Lmp? then s'.(lmp := s.lmp + {w.address}) else s'.(sdp := s.sdp + {w.address})
      else if Clears(s, w) then
        s'.(btc := s.btc - {w.address},
            clearedAfterBoth := if BothMarked(s, w.address) then s.clearedAfterBoth + {w.address}
                  else s.clearedAfterBoth)
      else s'
  }

  ghost predicate Run(s: State, steps: seq<Step>, s': State)
    decreases |steps|
  {
    if steps == [] then s == s'
    else Possible(s, steps[0]) && Run(Take(s, steps[0]), steps[1..], s')
  }

  ghost predicate Initial(s: State) {
    && (forall i :: 0 <= i < |s.workers| ==> s.workers[i].pc == Start)
    && s.lmp == {} && s.sdp == {} && s.clearedAfterBoth == {} && s.addedAfterBoth == {}
  }

  predicate HasMarked(w: Worker) {
    w.pc != Start && w.pc != Locked
  }

  /** Not decided yet, or decided to delete and not there yet. */
  predicate Undecided(w: Worker) {
    w.pc == Marked || w.pc == SawSdp || w.pc == AllDone || w.pc == AddressesLocked || w.pc == Found
  }

  /** Of two threads that marked one address in different maps, one has cleared it or may still do so. */
  ghost predicate Covered(s: State, l: nat, d: nat)
    requires l < |s.workers| && d < |s.workers|
  {
    var v, w := s.workers[l], s.workers[d];
    v.kind.Lmp? && w.kind.Sdp? && v.address == w.address && HasMarked(v) && HasMarked(w) ==>
      v.address in s.clearedAfterBoth || Undecided(v) || Undecided(w)
  }

  ghost predicate Consistent(s: State, i: nat)
    requires i < |s.workers|
  {
    var w := s.workers[i];
    && (HasMarked(w) ==> if w.kind.Lmp? then w.address in s.lmp else w.address in s.sdp)
    && (w.pc == SawSdp ==> w.address in s.sdp)
    && (w.pc == AllDone || HoldsAddresses(w) || w.pc == AddressesReleased ==> BothMarked(s, w.address))
    && (w.pc == Found ==> w.address in s.btc)
  }

  /** A deleted address is back only if it was added back. */
  ghost predicate StaysCleared(s: State) {
    forall a :: a in s.clearedAfterBoth && a in s.btc ==> a in s.addedAfterBoth
  }

  ghost predicate Invariant(s: State) {
    && (forall i :: 0 <= i < |s.workers| ==> Consistent(s, i))
    && (forall l, d :: 0 <= l < |s.workers| && 0 <= d < |s.workers| ==> Covered(s, l, d))
    && StaysCleared(s) && Exclusive(s)
    && (forall a :: a in s.clearedAfterBoth ==> BothMarked(s, a))
  }

  lemma GoKeeps(s: State, i: nat)
    requires Invariant(s) && Possible(s, Go(i))
    ensures Invariant(Take(s, Go(i)))
  {
    var s' := Take(s, Go(i));
    var w, w' := s.workers[i], s'.workers[i];
    assert Consistent(s, i);
    StepIsExclusive(s, Go(i));
    forall j | 0 <= j < |s'.workers| ensures Consistent(s', j) {
      assert Consistent(s, j);
      assert j != i ==> Apart(s.workers[i], s.workers[j]);
    }
    forall l, d | 0 <= l < |s'.workers| && 0 <= d < |s'.workers| ensures Covered(s', l, d) {
      assert Covered(s, l, d) && Consistent(s, l) && Consistent(s, d);
    }
  }

  lemma LogKeeps(s: State, step: Step)
    requires Invariant(s) && Possible(s, step) && !step.Go?
    ensures Invariant(Take(s, step))
  {
    var s' := Take(s, step);
    StepIsExclusive(s, step);
    forall j | 0 <= j < |s'.workers| ensures Consistent(s', j) {
      assert Consistent(s, j);
    }
    forall l, d | 0 <= l < |s'.workers| && 0 <= d < |s'.workers| ensures Covered(s', l, d) {
      assert Covered(s, l, d);
    }
  }

  lemma {:induction false} RunKeeps(s: State, steps: seq<Step>, s': State)
    requires Invariant(s) && Run(s, steps, s')
    ensures Invariant(s') && |s'.workers| == |s.workers|
    ensures forall i :: 0 <= i < |s.workers| ==>
                          s'.workers[i].kind == s.workers[i].kind && s'.workers[i].address == s.workers[i].address
    decreases |steps|
  {
    if steps == [] {
    } else {
      match steps[0] {
        case Go(i) => GoKeeps(s, i);
        case _ => LogKeeps(s, steps[0]);
      }
      RunKeeps(Take(s, steps[0]), steps[1..], s');
    }
  }

  /**
   Whatever the interleaving, once an LMP and an SDP thread of one address are finished, some thread has deleted the
   address after both marks were set, and it is still listed only if it was added after they were.
   */
  lemma FinishedAddressIsDeleted(s: State, steps: seq<Step>, s': State, l: nat, d: nat)
    requires Initial(s) && Run(s, steps, s')
    requires l < |s.workers| == |s'.workers| && d < |s.workers|
    requires s.workers[l].kind.Lmp? && s.workers[d].kind.Sdp? && s.workers[l].address == s.workers[d].address
    requires s'.workers[l].pc == s'.workers[d].pc == Finished
    ensures s.workers[l].address in s'.clearedAfterBoth
    ensures s.workers[l].address in s'.btc ==> s.workers[l].address in s'.addedAfterBoth
  {
    RunKeeps(s, steps, s');
    assert Covered(s', l, d);
  }

  /** A thread of this kind has marked the address. */
  ghost predicate MarkedBy(s: State, k: Kind, a: Address) {
    exists i :: 0 <= i < |s.workers| && s.workers[i].kind == k && s.workers[i].address == a && HasMarked(s.workers[i])
  }

  ghost predicate MarksAreTrue(s: State) {
    forall a :: (a in s.lmp <==> MarkedBy(s, Lmp, a)) && (a in s.sdp <==> MarkedBy(s, Sdp, a))
  }

  lemma StepMarks(s: State, step: Step)
    requires MarksAreTrue(s) && Possible(s, step)
    ensures MarksAreTrue(Take(s, step))
  {
    var s' := Take(s, step);
    forall k, a ensures MarkedBy(s', k, a) <==>
                        MarkedBy(s, k, a) || (step.Go? && s.workers[step.worker].pc == Locked
                                              && s.workers[step.worker].kind == k &&
                                                    s.workers[step.worker].address == a) {
      if MarkedBy(s, k, a) {
        var i :| 0 <= i < |s.workers| && s.workers[i].kind == k && s.workers[i].address == a && HasMarked(s.workers[i]);
        assert HasMarked(s'.workers[i]);
      }
      if MarkedBy(s', k, a) {
        var i :| 0 <= i < |s'.workers| && s'.workers[i].kind == k && s'.workers[i].address == a
                 && HasMarked(s'.workers[i]);
        assert (step.Go? && step.worker == i) || s.workers[i] == s'.workers[i];
      }
      assert step.Go? ==> s'.workers[step.worker].kind == s.workers[step.worker].kind;
    }
  }

  lemma {:induction false} RunMarks(s: State, steps: seq<Step>, s': State)
    requires MarksAreTrue(s) && Run(s, steps, s')
    ensures MarksAreTrue(s')
    decreases |steps|
  {
    if steps == [] {
    } else {
      StepMarks(s, steps[0]);
      RunMarks(Take(s, steps[0]), steps[1..], s');
    }
  }

  /** An application thread deletes an address only once threads of both kinds have finished for it. */
  lemma DeletedOnlyAfterBoth(s: State, steps: seq<Step>, s': State, i: nat, a: Address)
    requires Initial(s) && Run(s, steps, s') && Possible(s', Go(i))
    requires a in s'.btc && a !in Take(s', Go(i)).btc
    ensures MarkedBy(s', Lmp, a) && MarkedBy(s', Sdp, a) && s'.workers[i].address == a
  {
    RunKeeps(s, steps, s');
    RunMarks(s, steps, s');
    assert Consistent(s', i);
  }

  /** A thread that found its address there still finds it when it deletes it: `del` never raises. */
  lemma DeletionNeverRaises(s: State, steps: seq<Step>, s': State, i: nat)
    requires Initial(s) && Run(s, steps, s') && i < |s'.workers| && s'.workers[i].pc == Found
    ensures s'.workers[i].address in s'.btc
  {
    RunKeeps(s, steps, s');
    assert Consistent(s', i);
  }

  /** No two threads are ever inside the same success section, nor inside the address section. */
  lemma {:induction false} SectionsAreExclusive(s: State, steps: seq<Step>, s': State)
    requires Exclusive(s) && Run(s, steps, s')
    ensures Exclusive(s')
    decreases |steps|
  {
    if steps == [] {
    } else {
      StepIsExclusive(s, steps[0]);
      SectionsAreExclusive(Take(s, steps[0]), steps[1..], s');
    }
  }

  predicate Apart(v: Worker, w: Worker) {
    && !(HoldsSuccess(v, v.kind) && HoldsSuccess(w, v.kind))
    && !(HoldsAddresses(v) && HoldsAddresses(w))
  }

  ghost predicate Exclusive(s: State) {
    forall i, j :: 0 <= i < |s.workers| && 0 <= j < |s.workers| && i != j ==> Apart(s.workers[i], s.workers[j])
  }

  lemma StepIsExclusive(s: State, step: Step)
    requires Exclusive(s) && Possible(s, step)
    ensures Exclusive(Take(s, step))
  {
    var s' := Take(s, step);
    forall i, j | 0 <= i < |s'.workers| && 0 <= j < |s'.workers| && i != j ensures Apart(s'.workers[i], s'.workers[j]) {
      assert Apart(s.workers[i], s.workers[j]);
    }
  }
}
