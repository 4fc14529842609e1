/** Any number of writers publishing to one destination: each writes a
    temporary file of its own and links it to the destination without replacing
    what is there, then compares with what it found. Steps of different writers
    interleave freely and each may fail. */
module WriteOnce {
  import opened Wrappers

  /** A file holding a whole record, or only some of its bytes. */
  datatype Blob<R> = Whole(record: R) | Fragment

  datatype Verdict = Stored | Reused | Conflict | Failed

  /** The operation a writer is about to do. The file is closed even when it could
      not be written, and removed whatever was decided. */
  datatype Phase =
    | Creating | Writing | Syncing | Closing(bad: bool) | Linking | Reading
    | Removing(verdict: Verdict) | Done(verdict: Verdict)

  /** A writer holds its record and the context in which it judges what it finds. */
  datatype Writer<R, C> = Writer(record: R, context: C, phase: Phase, temporary: Option<Blob<R>>)

  datatype State<R, C> = State(destination: Option<Blob<R>>, writers: seq<Writer<R, C>>)

  /** How a store compares: a found record must be valid in the writer's own
      context and have the key of the writer's record. */
  datatype Comparison<!R, !C, !K> = Comparison(valid: (R, C) -> bool, key: R -> K)

  predicate Succeeded(verdict: Verdict) {
    verdict.Stored? || verdict.Reused?
  }

  /** What a writer has decided, once it has. */
  function Decision<R, C>(writer: Writer<R, C>): Option<Verdict> {
    if writer.phase.Removing? || writer.phase.Done? then Some(writer.phase.verdict) else None
  }

  predicate Matching<R, C, K(==)>(found: Option<Blob<R>>, mine: Writer<R, C>, compare: Comparison<R, C, K>) {
    && found.Some? && found.value.Whole? && compare.valid(found.value.record, mine.context)
    && compare.key(found.value.record) == compare.key(mine.record)
  }

  /** A writer never changes what it set out to store, or how it judges. */
  ghost predicate SameClaim<R, C>(now: Writer<R, C>, before: Writer<R, C>) {
    now.record == before.record && now.context == before.context
  }

  /** One operation of one writer, which succeeds or fails. */
  ghost predicate WriterStep<R(!new), C(!new), K(!new)>(d: Option<Blob<R>>, w: Writer<R, C>, d': Option<Blob<R>>,
                                                        w': Writer<R, C>, ok: bool,
                                                        compare: Comparison<R, C, K>) {
    match w.phase
    case Creating =>
      && d' == d
      && w' == if ok then w.(temporary := Some(Fragment), phase := Writing) else w.(phase := Done(Failed))
    case Writing =>
      && d' == d
      && w' == if ok then w.(temporary := Some(Whole(w.record)), phase := Syncing) else w.(phase := Closing(true))
    case Syncing =>
      d' == d && w' == w.(phase := Closing(!ok))
    case Closing(bad) =>
      d' == d && w' == w.(phase := if ok && !bad then Linking else Removing(Failed))
    case Linking =>
      if !ok then d' == d && w' == w.(phase := Removing(Failed))
      else if d.None? then d' == w.temporary && w' == w.(phase := Removing(Stored))
      else d' == d && w' == w.(phase := Reading)
    case Reading =>
      && d' == d
      && w' == w.(phase := Removing(
           if !ok then Failed else if Matching(d, w, compare) then Reused else Conflict))
    case Removing(verdict) =>
      && d' == d
      && w' == (if ok then w.(temporary := None) else w).(phase := Done(verdict))
    case Done(_) => false
  }

  ghost predicate StepOf<R(!new), C(!new), K(!new)>(s: State<R, C>, s': State<R, C>, i: nat, ok: bool,
                                                    compare: Comparison<R, C, K>) {
    && i < |s.writers| == |s'.writers|
    && s'.writers == s.writers[i := s'.writers[i]]
    && WriterStep(s.destination, s.writers[i], s'.destination, s'.writers[i], ok, compare)
  }

  ghost predicate Next<R(!new), C(!new), K(!new)>(s: State<R, C>, s': State<R, C>, compare: Comparison<R, C, K>) {
    exists i: nat, ok :: StepOf(s, s', i, ok, compare)
  }

  /** Nothing has been done yet, and each writer has found its own record valid. */
  ghost predicate Start<R, C, K>(s: State<R, C>, compare: Comparison<R, C, K>) {
    forall i | 0 <= i < |s.writers| ::
      && s.writers[i].phase.Creating? && s.writers[i].temporary.None?
      && compare.valid(s.writers[i].record, s.writers[i].context)
  }

  /** A run: a sequence of states, each reached from the last by one step. */
  ghost predicate Run<R(!new), C(!new), K(!new)>(run: seq<State<R, C>>, compare: Comparison<R, C, K>) {
    && run != [] && Start(run[0], compare)
    && (forall k | 0 <= k < |run| - 1 :: Next(run[k], run[k + 1], compare))
  }

  /** What holds of a writer, given what the destination holds now and held at the start. */
  ghost predicate WriterInvariant<R, C, K>(w: Writer<R, C>, destination: Option<Blob<R>>, initial: Option<Blob<R>>,
                                           compare: Comparison<R, C, K>) {
    && (w.phase in {Syncing, Closing(false), Linking} ==> w.temporary == Some(Whole(w.record)))
    && (w.phase.Reading? ==> destination.Some?)
    && (Decision(w) == Some(Stored) ==> initial.None? && destination == Some(Whole(w.record)))
    && (Decision(w) == Some(Reused) ==> Matching(destination, w, compare))
    && (Decision(w) == Some(Conflict) ==> destination.Some? && !Matching(destination, w, compare))
  }

  ghost predicate Invariant<R, C, K>(s: State<R, C>, initial: Option<Blob<R>>, compare: Comparison<R, C, K>) {
    && (forall i | 0 <= i < |s.writers| :: WriterInvariant(s.writers[i], s.destination, initial, compare))
    && (initial.Some? ==> s.destination == initial)
    && (initial.None? && s.destination.Some? ==>
          exists i | 0 <= i < |s.writers| :: Decision(s.writers[i]) == Some(Stored))
    && (forall i, j | 0 <= i < j < |s.writers| ::
          Decision(s.writers[i]) == Some(Stored) ==> Decision(s.writers[j]) != Some(Stored))
    && (s.destination.None? ==> forall i | 0 <= i < |s.writers| :: Decision(s.writers[i]) != Some(Stored))
  }

  lemma WriterStepKeeps<R(!new), C(!new), K(!new)>(d: Option<Blob<R>>, w: Writer<R, C>, d': Option<Blob<R>>,
                                                   w': Writer<R, C>, ok: bool, initial: Option<Blob<R>>,
                                                   compare: Comparison<R, C, K>)
    requires WriterStep(d, w, d', w', ok, compare) && WriterInvariant(w, d, initial, compare)
    requires initial.Some? ==> d == initial
    ensures WriterInvariant(w', d', initial, compare) && SameClaim(w', w)
    ensures d' == d || (d.None? && Decision(w') == Some(Stored))
    ensures Decision(w).Some? ==> Decision(w') == Decision(w) && d' == d
    ensures Decision(w') == Some(Stored) && Decision(w).None? ==> d.None? && d'.Some?
  {
  }

  lemma StepKeepsInvariant<R(!new), C(!new), K(!new)>(s: State<R, C>, s': State<R, C>, initial: Option<Blob<R>>,
                                                      compare: Comparison<R, C, K>)
    requires Invariant(s, initial, compare) && Next(s, s', compare)
    ensures Invariant(s', initial, compare)
    ensures s.destination.Some? ==> s'.destination == s.destination
    ensures |s'.writers| == |s.writers| && forall i | 0 <= i < |s.writers| :: SameClaim(s'.writers[i], s.writers[i])
  {
    var i: nat, ok :| StepOf(s, s', i, ok, compare);
    WriterStepKeeps(s.destination, s.writers[i], s'.destination, s'.writers[i], ok, initial, compare);
    hide WriterStep;
    assert forall j | 0 <= j < |s.writers| && j != i :: s'.writers[j] == s.writers[j];
    if s.destination.Some? && initial.None? {
      var j :| 0 <= j < |s.writers| && Decision(s.writers[j]) == Some(Stored);
      assert Decision(s'.writers[j]) == Some(Stored);
    }
  }

  /** The invariant holds in every state of every run. */
  lemma {:induction false} RunKeepsInvariant<R(!new), C(!new), K(!new)>(run: seq<State<R, C>>, k: nat,
                                                                        compare: Comparison<R, C, K>)
    requires Run(run, compare) && k < |run|
    ensures Invariant(run[k], run[0].destination, compare)
    ensures |run[k].writers| == |run[0].writers|
    ensures forall i | 0 <= i < |run[0].writers| :: SameClaim(run[k].writers[i], run[0].writers[i])
  {
    if k == 0 {
    } else {
      RunKeepsInvariant(run, k - 1, compare);
      assert Next(run[k - 1], run[k - 1 + 1], compare);
      StepKeepsInvariant(run[k - 1], run[k], run[0].destination, compare);
    }
  }

  /** Once present, the destination never changes. */
  lemma {:induction false} DestinationIsStable<R(!new), C(!new), K(!new)>(run: seq<State<R, C>>, j: nat, k: nat,
                                                                          compare: Comparison<R, C, K>)
    requires Run(run, compare) && j <= k < |run|
    requires run[j].destination.Some?
    ensures run[k].destination == run[j].destination
    decreases k
  {
    if j == k {
    } else {
      DestinationIsStable(run, j, k - 1, compare);
      RunKeepsInvariant(run, k - 1, compare);
      assert Next(run[k - 1], run[k - 1 + 1], compare);
      StepKeepsInvariant(run[k - 1], run[k], run[0].destination, compare);
    }
  }

  /** If nothing was there at first, whatever is there is the whole record of
      the one writer that reports having stored it. */
  lemma DestinationIsWhole<R(!new), C(!new), K(!new)>(run: seq<State<R, C>>, k: nat, compare: Comparison<R, C, K>)
    requires Run(run, compare) && k < |run|
    requires run[0].destination.None? && run[k].destination.Some?
    ensures exists i | 0 <= i < |run[k].writers| ::
      && Decision(run[k].writers[i]) == Some(Stored)
      && run[k].destination == Some(Whole(run[k].writers[i].record))
      && forall j | 0 <= j < |run[k].writers| && Decision(run[k].writers[j]) == Some(Stored) :: j == i
  {
    RunKeepsInvariant(run, k, compare);
    var i :| 0 <= i < |run[k].writers| && Decision(run[k].writers[i]) == Some(Stored);
    assert WriterInvariant(run[k].writers[i], run[k].destination, None, compare);
  }

  ghost predicate WriterSucceeds<R, C>(w: Writer<R, C>) {
    Decision(w).Some? && Succeeded(Decision(w).value)
  }

  /** A writer that stored its record, or found one to reuse, matches what is there. */
  lemma SuccessMatches<R(!new), C(!new), K(!new)>(run: seq<State<R, C>>, k: nat, i: nat, compare: Comparison<R, C, K>)
    requires Run(run, compare) && k < |run| && i < |run[k].writers|
    requires Decision(run[k].writers[i]).Some? && Decision(run[k].writers[i]) != Some(Failed)
    ensures run[k].destination.Some?
    ensures WriterSucceeds(run[k].writers[i]) <==> Matching(run[k].destination, run[k].writers[i], compare)
  {
    RunKeepsInvariant(run, k, compare);
    var w := run[k].writers[i];
    assert WriterInvariant(w, run[k].destination, run[0].destination, compare);
    assert compare.valid(run[0].writers[i].record, run[0].writers[i].context);
    assert Decision(w) == Some(Stored) || Decision(w) == Some(Reused) || Decision(w) == Some(Conflict) by {
      var verdict := Decision(w).value;
      match verdict case Stored => case Reused => case Conflict => case Failed =>
    }
  }

  /** All writers that succeed hold records with one key. A writer that reports a
      conflict holds another key, or cannot admit in its context what is there;
      in the context of a writer that succeeded it is the key. */
  lemma SuccessesAgree<R(!new), C(!new), K(!new)>(run: seq<State<R, C>>, k: nat, i: nat, j: nat,
                                                  compare: Comparison<R, C, K>)
    requires Run(run, compare)
    requires k < |run| && i < |run[k].writers| && j < |run[k].writers|
    requires WriterSucceeds(run[k].writers[i])
    ensures WriterSucceeds(run[k].writers[j]) ==>
      compare.key(run[k].writers[i].record) == compare.key(run[k].writers[j].record)
    ensures Decision(run[k].writers[j]) == Some(Conflict) && run[k].writers[j].context == run[k].writers[i].context ==>
      compare.key(run[k].writers[i].record) != compare.key(run[k].writers[j].record)
  {
    SuccessMatches(run, k, i, compare);
    if Decision(run[k].writers[j]).Some? && Decision(run[k].writers[j]) != Some(Failed) {
      SuccessMatches(run, k, j, compare);
    }
  }

  /** A writer that met no failure has succeeded exactly if its record matches
      what the destination holds from then on. */
  lemma VerdictIsFinal<R(!new), C(!new), K(!new)>(run: seq<State<R, C>>, j: nat, k: nat, i: nat,
                                                  compare: Comparison<R, C, K>)
    requires Run(run, compare)
    requires j <= k < |run| && i < |run[j].writers|
    requires Decision(run[j].writers[i]).Some? && Decision(run[j].writers[i]) != Some(Failed)
    ensures run[k].destination.Some?
    ensures WriterSucceeds(run[j].writers[i]) <==> Matching(run[k].destination, run[j].writers[i], compare)
  {
    SuccessMatches(run, j, i, compare);
    DestinationIsStable(run, j, k, compare);
  }

  // ----- the steps behind a verdict

  /** A step of a run: which writer took it, and whether its operation succeeded. */
  datatype Move = Move(writer: nat, ok: bool)

  /** A run together with the moves that it consists of. */
  ghost predicate Traced<R(!new), C(!new), K(!new)>(run: seq<State<R, C>>, moves: seq<Move>,
                                                    compare: Comparison<R, C, K>) {
    && |run| == |moves| + 1 && Start(run[0], compare)
    && forall k | 0 <= k < |moves| :: StepOf(run[k], run[k + 1], moves[k].writer, moves[k].ok, compare)
  }

  lemma TracedIsRun<R(!new), C(!new), K(!new)>(run: seq<State<R, C>>, moves: seq<Move>, compare: Comparison<R, C, K>)
    requires Traced(run, moves, compare)
    ensures Run(run, compare)
  {
    forall k | 0 <= k < |run| - 1 ensures Next(run[k], run[k + 1], compare) {
      assert StepOf(run[k], run[k + 1], moves[k].writer, moves[k].ok, compare);
    }
  }

  lemma {:induction false} RunIsTraced<R(!new), C(!new), K(!new)>(run: seq<State<R, C>>, compare: Comparison<R, C, K>)
    returns (moves: seq<Move>)
    requires Run(run, compare)
    ensures Traced(run, moves, compare)
    decreases |run|
  {
    moves := [];
    if |run| > 1 {
      var front := run[..|run| - 1];
      var last := |front| - 1;
      assert Run(front, compare) by {
        forall k | 0 <= k < last ensures Next(front[k], front[k + 1], compare) {
          assert Next(run[k], run[k + 1], compare);
        }
      }
      moves := RunIsTraced(front, compare);
      assert Next(run[last], run[last + 1], compare);
      var i: nat, ok :| StepOf(run[last], run[last + 1], i, ok, compare);
      moves := moves + [Move(i, ok)];
    }
  }

  /** How many of these moves are the writer's own. */
  ghost function Own(moves: seq<Move>, i: nat): nat {
    if moves == [] then 0 else Own(moves[..|moves| - 1], i) + if moves[|moves| - 1].writer == i then 1 else 0
  }

  /** One of the writer's own moves has failed, before it came to remove its file. */
  ghost predicate HasFailed<R, C>(run: seq<State<R, C>>, moves: seq<Move>, i: nat)
    requires |moves| < |run|
  {
    exists m | 0 <= m < |moves| && moves[m] == Move(i, false) ::
      i < |run[m].writers| && Decision(run[m].writers[i]).None?
  }

  /** The next operation of a writer none of whose moves has failed, after so many of them. */
  ghost predicate OnCourse(phase: Phase, own: nat) {
    match phase
    case Creating => own == 0
    case Writing => own == 1
    case Syncing => own == 2
    case Closing(bad) => own == 3 && !bad
    case Linking => own == 4
    case Reading => own == 5
    case Removing(verdict) => if verdict == Stored then own == 5 else verdict != Failed && own == 6
    case Done(verdict) => if verdict == Stored then own == 6 else verdict != Failed && own == 7
  }

  lemma StepOnCourse<R(!new), C(!new), K(!new)>(d: Option<Blob<R>>, w: Writer<R, C>, d': Option<Blob<R>>,
                                                w': Writer<R, C>, ok: bool, own: nat, compare: Comparison<R, C, K>)
    requires WriterStep(d, w, d', w', ok, compare) && (ok || Decision(w).Some?) && OnCourse(w.phase, own)
    ensures OnCourse(w'.phase, own + 1)
  {
  }

  ghost predicate OffCourse(phase: Phase) {
    phase in {Closing(true), Removing(Failed), Done(Failed)}
  }

  lemma StepOffCourse<R(!new), C(!new), K(!new)>(d: Option<Blob<R>>, w: Writer<R, C>, d': Option<Blob<R>>,
                                                 w': Writer<R, C>, ok: bool, compare: Comparison<R, C, K>)
    requires WriterStep(d, w, d', w', ok, compare)
    requires OffCourse(w.phase) || (!ok && Decision(w).None?)
    ensures OffCourse(w'.phase)
  {
  }

  /** A writer none of whose moves has failed has done, in order, as many of the
      operations as it has made moves; any other is on its way to giving up, and
      so only a failed operation makes a writer fail. */
  lemma {:induction false} MovesDecide<R(!new), C(!new), K(!new)>(run: seq<State<R, C>>, moves: seq<Move>, k: nat,
                                                                  i: nat, compare: Comparison<R, C, K>)
    requires Traced(run, moves, compare) && k <= |moves| && i < |run[k].writers|
    ensures if HasFailed(run, moves[..k], i) then OffCourse(run[k].writers[i].phase)
      else OnCourse(run[k].writers[i].phase, Own(moves[..k], i))
  {
    if k == 0 {
      assert moves[..0] == [];
    } else {
      var before, now, move := run[k - 1], run[k], moves[k - 1];
      assert StepOf(run[k - 1], run[k - 1 + 1], moves[k - 1].writer, moves[k - 1].ok, compare);
      MovesDecide(run, moves, k - 1, i, compare);
      assert moves[..k] == moves[..k - 1] + [move];
      FailedMore(run, moves, k, i);
      hide WriterStep, HasFailed, OnCourse, OffCourse;
      if move.writer == i {
        if HasFailed(run, moves[..k], i) {
          StepOffCourse(before.destination, before.writers[i], now.destination, now.writers[i], move.ok, compare);
        } else {
          StepOnCourse(before.destination, before.writers[i], now.destination, now.writers[i], move.ok,
                       Own(moves[..k - 1], i), compare);
        }
      }
    }
  }

  lemma FailedMore<R(!new), C(!new)>(run: seq<State<R, C>>, moves: seq<Move>, k: nat, i: nat)
    requires 0 < k <= |moves| < |run| && i < |run[k - 1].writers|
    ensures HasFailed(run, moves[..k], i) <==>
      HasFailed(run, moves[..k - 1], i) || (moves[k - 1] == Move(i, false) && Decision(run[k - 1].writers[i]).None?)
  {
    if HasFailed(run, moves[..k - 1], i) {
      var m :| 0 <= m < k - 1 && moves[..k - 1][m] == Move(i, false)
        && i < |run[m].writers| && Decision(run[m].writers[i]).None?;
      assert moves[..k][m] == Move(i, false);
    }
    if moves[k - 1] == Move(i, false) && Decision(run[k - 1].writers[i]).None? {
      assert moves[..k][k - 1] == Move(i, false);
    }
    if HasFailed(run, moves[..k], i) {
      var m :| 0 <= m < k && moves[..k][m] == Move(i, false)
        && i < |run[m].writers| && Decision(run[m].writers[i]).None?;
      if m < k - 1 {
        assert moves[..k - 1][m] == Move(i, false);
      }
    }
  }

  /** A writer fails exactly if one of its own operations did, other than the last
      removal. One that has decided and met no failure has succeeded exactly if
      its record matches what is there, and otherwise reports a conflict. */
  lemma VerdictIsEarned<R(!new), C(!new), K(!new)>(run: seq<State<R, C>>, moves: seq<Move>, k: nat, i: nat,
                                                   compare: Comparison<R, C, K>)
    requires Traced(run, moves, compare) && k <= |moves| && i < |run[k].writers|
    requires Decision(run[k].writers[i]).Some?
    ensures Decision(run[k].writers[i]) == Some(Failed) <==> HasFailed(run, moves[..k], i)
    ensures !HasFailed(run, moves[..k], i) ==>
      && (WriterSucceeds(run[k].writers[i]) <==> Matching(run[k].destination, run[k].writers[i], compare))
      && (Decision(run[k].writers[i]) == Some(Conflict) <==>
            !Matching(run[k].destination, run[k].writers[i], compare))
  {
    MovesDecide(run, moves, k, i, compare);
    TracedIsRun(run, moves, compare);
    if !HasFailed(run, moves[..k], i) {
      SuccessMatches(run, k, i, compare);
    }
  }

  // ----- a writer alone

  /** The state after one more successful operation of writer `i`. */
  lemma MoveAlone<R(!new), C(!new), K(!new)>(run: seq<State<R, C>>, moves: seq<Move>, i: nat, d': Option<Blob<R>>,
                                             w': Writer<R, C>, compare: Comparison<R, C, K>)
    returns (run': seq<State<R, C>>, moves': seq<Move>)
    requires Traced(run, moves, compare) && i < |run[|moves|].writers|
    requires WriterStep(run[|moves|].destination, run[|moves|].writers[i], d', w', true, compare)
    ensures Traced(run', moves', compare) && moves' == moves + [Move(i, true)]
    ensures run' == run + [State(d', run[|moves|].writers[i := w'])]
    ensures |run'| == |moves'| + 1 && run'[|moves'|] == State(d', run[|moves|].writers[i := w'])
  {
    hide WriterStep;
    var next := State(d', run[|moves|].writers[i := w']);
    run', moves' := run + [next], moves + [Move(i, true)];
    assert StepOf(run[|moves|], next, i, true, compare);
    forall k | 0 <= k < |moves'| ensures StepOf(run'[k], run'[k + 1], moves'[k].writer, moves'[k].ok, compare) {
      if k < |moves| {
        assert StepOf(run[k], run[k + 1], moves[k].writer, moves[k].ok, compare);
      }
    }
  }

  /** From wherever others have left it, a writer that starts now and is left alone
      stores its record if nothing is there, reuses what matches, and meets a
      conflict in what does not. */
  lemma Alone<R(!new), C(!new), K(!new)>(run: seq<State<R, C>>, moves: seq<Move>, i: nat, compare: Comparison<R, C, K>)
    returns (run': seq<State<R, C>>, moves': seq<Move>)
    requires Traced(run, moves, compare) && i < |run[|moves|].writers| && run[|moves|].writers[i].phase == Creating
    ensures Traced(run', moves', compare) && run <= run' && moves <= moves'
    ensures var before, after := run[|moves|], run'[|moves'|];
      && after.destination ==
           (if before.destination.None? then Some(Whole(before.writers[i].record)) else before.destination)
      && after.writers == before.writers[i := before.writers[i].(temporary := None, phase := Done(
           if before.destination.None? then Stored
           else if Matching(before.destination, before.writers[i], compare) then Reused else Conflict))]
  {
    hide Traced, Matching;
    RunLength(run, moves, compare);
    var d, w := run[|moves|].destination, run[|moves|].writers[i];
    run', moves' := WriteAlone(run, moves, i, compare);
    var full := w.(temporary := Some(Whole(w.record)));
    if d.None? {
      d := Some(Whole(w.record));
      run', moves' := MoveAlone(run', moves', i, d, full.(phase := Removing(Stored)), compare);
      run', moves' := MoveAlone(run', moves', i, d, w.(temporary := None, phase := Done(Stored)), compare);
    } else {
      run', moves' := MoveAlone(run', moves', i, d, full.(phase := Reading), compare);
      var verdict := if Matching(d, full.(phase := Reading), compare) then Reused else Conflict;
      run', moves' := MoveAlone(run', moves', i, d, full.(phase := Removing(verdict)), compare);
      run', moves' := MoveAlone(run', moves', i, d, w.(temporary := None, phase := Done(verdict)), compare);
      MatchingForgets(d, w, full.(phase := Reading), compare);
    }
  }

  lemma MatchingForgets<R(!new), C(!new), K(!new)>(d: Option<Blob<R>>, w: Writer<R, C>, w': Writer<R, C>,
                                                   compare: Comparison<R, C, K>)
    requires SameClaim(w', w)
    ensures Matching(d, w', compare) == Matching(d, w, compare)
  {
  }

  lemma WriteAlone<R(!new), C(!new), K(!new)>(run: seq<State<R, C>>, moves: seq<Move>, i: nat,
                                              compare: Comparison<R, C, K>)
    returns (run': seq<State<R, C>>, moves': seq<Move>)
    requires Traced(run, moves, compare) && i < |run[|moves|].writers| && run[|moves|].writers[i].phase == Creating
    ensures Traced(run', moves', compare) && run <= run' && moves <= moves'
    ensures var before, w := run[|moves|], run[|moves|].writers[i];
      run'[|moves'|] == before.(writers := before.writers[
        i := w.(temporary := Some(Whole(w.record)), phase := Linking)])
  {
    hide Traced;
    RunLength(run, moves, compare);
    var d, w := run[|moves|].destination, run[|moves|].writers[i];
    run', moves' := MoveAlone(run, moves, i, d, w.(temporary := Some(Fragment), phase := Writing), compare);
    var full := w.(temporary := Some(Whole(w.record)));
    run', moves' := MoveAlone(run', moves', i, d, full.(phase := Syncing), compare);
    run', moves' := MoveAlone(run', moves', i, d, full.(phase := Closing(false)), compare);
    run', moves' := MoveAlone(run', moves', i, d, full.(phase := Linking), compare);
  }

  /** Of two writers one after the other, the first stores its record, and the
      second reuses it if it has the key of its own and is valid for it. */
  lemma StoreThenReuse<R(!new), C(!new), K(!new)>(first: R, second: R, context: C, compare: Comparison<R, C, K>)
    returns (run: seq<State<R, C>>)
    requires compare.valid(first, context) && compare.valid(second, context)
    ensures Run(run, compare) && run[0].destination.None?
    ensures var last := run[|run| - 1];
      && last.destination == Some(Whole(first))
      && last.writers == [
           Writer(first, context, Done(Stored), None),
           Writer(second, context, Done(if compare.key(first) == compare.key(second) then Reused else Conflict), None)]
  {
    var start := State(None, [Writer(first, context, Creating, None), Writer(second, context, Creating, None)]);
    run := [start];
    var moves: seq<Move> := [];
    assert Traced(run, moves, compare);
    hide Traced;
    run, moves := Alone(run, moves, 0, compare);
    RunLength(run, moves, compare);
    run, moves := Alone(run, moves, 1, compare);
    RunLength(run, moves, compare);
    TracedIsRun(run, moves, compare);
  }

  lemma RunLength<R(!new), C(!new), K(!new)>(run: seq<State<R, C>>, moves: seq<Move>, compare: Comparison<R, C, K>)
    requires Traced(run, moves, compare)
    ensures |run| == |moves| + 1
  {
  }
}
