/** Properties of the ring menu's state machine: start-up, input handling and its priorities,
    index wrap-around, mutual exclusion of animations, and when listeners are notified. */
module MenuLaws {
  import opened MenuModel

  const TabKey := Keys(true, false, false)
  const QKey := Keys(false, true, false)
  const EKey := Keys(false, false, true)

  /** After Start the menu is closed and hidden, index 0 is selected, and the one notification
      so far carried index 0. */
  lemma StartSelectsFirstSlot(n: nat)
    requires n >= 1
    ensures var m := Start(Fresh(n));
      && Valid(m)
      && m.selected == 0
      && m.log == [0]
      && PhaseOf(m) == Closed
      && m.slots == Uniform(n, false) && !m.selectorActive
  {
  }

  /** A frame changes the menu exactly when no animation runs and either Tab is pressed or the
      ring is open and Q or E is pressed. */
  lemma UpdateActsExactlyWhen(m: Menu, keys: Keys)
    requires Valid(m)
    ensures Update(m, keys) != m <==> !Busy(m) && (keys.tab || (m.ringOpen && (keys.q || keys.e)))
  {
  }

  /** While an animation runs, any number of frames, whatever their keys, leave every field as
      it was and start nothing. */
  lemma {:induction false} FramesWhileAnimatingChangeNothing(m: Menu, evs: seq<Event>)
    requires Valid(m) && Busy(m)
    requires forall i :: 0 <= i < |evs| ==> evs[i].Frame?
    ensures Run(m, evs) == Some(m)
  {
    if evs != [] {
      assert Step(m, evs[0]) == Some(m);
      FramesWhileAnimatingChangeNothing(m, evs[1..]);
    }
  }

  /** Tab wins over Q and E: with no animation running, a frame with Tab acts as Tab alone,
      flips the open flag, starts the open/close animation and leaves the selection alone. */
  lemma TabHasPriority(m: Menu, keys: Keys)
    requires Valid(m) && !Busy(m) && keys.tab
    ensures var r := Update(m, keys);
      && r == Update(m, TabKey)
      && r.ringOpen == !m.ringOpen
      && r.openCloseAnimation && !r.selectorMoving
      && r.selected == m.selected
      && r.log == m.log
  {
  }

  /** Q wins over E: a frame with Q and without Tab acts as Q alone. */
  lemma PreviousHasPriorityOverNext(m: Menu, keys: Keys)
    requires Valid(m) && !keys.tab && keys.q
    ensures Update(m, keys) == Update(m, QKey)
  {
  }

  /** On an open, idle ring, Q or E (without Tab) starts a move of exactly one index from the
      selection, to the unwrapped target, and selects that target wrapped modulo n; nothing
      else changes. */
  lemma NavigationMovesOneStep(m: Menu, keys: Keys)
    requires Valid(m) && PhaseOf(m) == Open && !m.selectorMoving
    requires !keys.tab && (keys.q || keys.e)
    ensures var r := Update(m, keys);
      var target := if keys.q then m.selected - 1 else m.selected + 1;
      && r.selectorMoving
      && r.moveLast == m.selected && r.moveNext == target
      && 0 <= r.selected < m.n && r.selected % m.n == target % m.n
      && PhaseOf(r) == Open
      && r.slots == m.slots && r.selectorAt == m.selectorAt && r.log == m.log
  {
    WrapStep(m.selected, m.n);
  }

  /** Q from the first slot selects the last one; the move runs from 0 to -1. */
  lemma PreviousFromFirstSelectsLast(m: Menu)
    requires Valid(m) && PhaseOf(m) == Open && !m.selectorMoving && m.selected == 0
    ensures var r := Update(m, QKey);
      r.selected == m.n - 1 && r.moveLast == 0 && r.moveNext == -1
  {
  }

  /** E from the last slot selects the first one; the move runs from n - 1 to n. */
  lemma NextFromLastSelectsFirst(m: Menu)
    requires Valid(m) && PhaseOf(m) == Open && !m.selectorMoving && m.selected == m.n - 1
    ensures var r := Update(m, EKey);
      r.selected == 0 && r.moveLast == m.n - 1 && r.moveNext == m.n
  {
  }

  /** Q, its move to completion, E, its move to completion: the selection is back where it
      was, the selector rests at an index congruent to it, and nothing was notified. */
  lemma PreviousThenNextRestores(m: Menu)
    requires Valid(m) && PhaseOf(m) == Open && !m.selectorMoving
    ensures
      var r := Run(m, [Frame(QKey), MoveDone, Frame(EKey), MoveDone]);
      && r.Some?
      && r.value.selected == m.selected
      && PhaseOf(r.value) == Open && !r.value.selectorMoving
      && r.value.selectorAt.OnRing? && r.value.selectorAt.index % m.n == m.selected
      && r.value.log == m.log
  {
    WrapStep(m.selected, m.n);
    var m1 := Update(m, QKey);
    assert m1 == StartMove(m, m.selected - 1);
    var m2 := FinishMove(m1);
    var back := if m.selected == 0 then m.n - 1 else m.selected - 1;
    assert m2.selected == back && PhaseOf(m2) == Open && !m2.selectorMoving;
    WrapStep(back, m.n);
    var m3 := Update(m2, EKey);
    assert m3 == StartMove(m2, back + 1);
    var m4 := FinishMove(m3);
    assert m4.selected == m.selected && m4.selectorAt == OnRing(back + 1);
    assert Run(m3, [MoveDone]) == Some(m4);
    assert Run(m2, [Frame(EKey), MoveDone]) == Some(m4);
    assert Run(m1, [MoveDone, Frame(EKey), MoveDone]) == Some(m4);
  }

  /** A running move goes between indices one apart; its target is the unwrapped index, from
      -1 to n; finishing it puts the selector exactly there and changes no selection. */
  lemma MoveEndsAtUnwrappedTarget(m: Menu)
    requires Valid(m) && m.selectorMoving
    ensures m.moveNext == m.moveLast - 1 || m.moveNext == m.moveLast + 1
    ensures -1 <= m.moveNext <= m.n
    ensures FinishMove(m).selectorAt == OnRing(m.moveNext)
    ensures FinishMove(m).selected == m.selected
  {
  }

  /** Neither a frame of input nor the end of an opening or of a move notifies. */
  lemma OnlyClosingNotifies(m: Menu, keys: Keys)
    requires Valid(m)
    ensures Update(m, keys).log == m.log
    ensures PhaseOf(m) == Opening ==> FinishOpen(m).log == m.log
    ensures m.selectorMoving ==> FinishMove(m).log == m.log
  {
  }

  /** Finishing a close leaves the menu closed, every slot and the selector inactive and at the
      centre, and notifies the selected index exactly once. */
  lemma CloseCommitsSelection(m: Menu)
    requires Valid(m) && PhaseOf(m) == Closing
    ensures var r := FinishClose(m);
      && r.log == m.log + [m.selected]
      && PhaseOf(r) == Closed
      && r.slots == Uniform(m.n, false) && !r.selectorActive
      && r.selectorAt == Centre
      && r.selected == m.selected
  {
  }

  /** Tab cycles the menu Closed -> Opening -> Open -> Closing -> Closed, the animation ends
      taking it from Opening to Open and from Closing to Closed. */
  lemma TabCycle(m: Menu)
    requires Valid(m)
    ensures PhaseOf(m) == Closed ==> PhaseOf(Update(m, TabKey)) == Opening
    ensures PhaseOf(m) == Open && !m.selectorMoving ==> PhaseOf(Update(m, TabKey)) == Closing
    ensures PhaseOf(m) == Opening ==> PhaseOf(FinishOpen(m)) == Open
    ensures PhaseOf(m) == Closing ==> PhaseOf(FinishClose(m)) == Closed
  {
  }

  /** The number of close completions in a schedule. */
  function Closes(evs: seq<Event>): nat
  {
    if evs == [] then 0 else (if evs[0].CloseDone? then 1 else 0) + Closes(evs[1..])
  }

  /** Along any possible schedule, the notifications so far are kept and exactly one is added
      per completed close. */
  lemma {:induction false} RunNotifiesOncePerClose(m: Menu, evs: seq<Event>)
    requires Valid(m) && Run(m, evs).Some?
    decreases |evs|
    ensures var r := Run(m, evs).value;
      && |r.log| == |m.log| + Closes(evs)
      && r.log[..|m.log|] == m.log
  {
    if evs != [] {
      var m1 := Step(m, evs[0]).value;
      assert |m1.log| == |m.log| + (if evs[0].CloseDone? then 1 else 0);
      assert m1.log[..|m.log|] == m.log;
      RunNotifiesOncePerClose(m1, evs[1..]);
    }
  }

  /** Open, step the selection back once, close: exactly one notification is added, carrying
      the new selection, and the menu is closed again. */
  lemma OpenNavigateCloseCommits(m: Menu)
    requires Valid(m) && PhaseOf(m) == Closed
    ensures
      var r := Run(m, [Frame(TabKey), OpenDone, Frame(QKey), MoveDone, Frame(TabKey), CloseDone]);
      && r.Some?
      && r.value.log == m.log + [(m.selected - 1) % m.n]
      && PhaseOf(r.value) == Closed
  {
    var m1 := Update(m, TabKey);
    var m2 := FinishOpen(m1);
    var m3 := Update(m2, QKey);
    var m4 := FinishMove(m3);
    var m5 := Update(m4, TabKey);
    var m6 := FinishClose(m5);
    assert Run(m5, [CloseDone]) == Some(m6);
    assert Run(m4, [Frame(TabKey), CloseDone]) == Some(m6);
    assert Run(m3, [MoveDone, Frame(TabKey), CloseDone]) == Some(m6);
    assert Run(m2, [Frame(QKey), MoveDone, Frame(TabKey), CloseDone]) == Some(m6);
    assert Run(m1, [OpenDone, Frame(QKey), MoveDone, Frame(TabKey), CloseDone]) == Some(m6);
  }
}
