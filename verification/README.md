# Ring menu state machine

This project models the RingMenu component of a Unity radial menu. The component keeps a ring
of icon slots and a selector around an anchor. Tab opens and closes the ring. Q and E move the
selector to the previous and the next slot. The component notifies the selected index through
`OnItemSelected`, once at start-up and once each time a close animation ends; a notification
reaches only the listeners subscribed at that moment.

The model covers the component's discrete state:

- the flags `_ringOpen`, `_ringOpenCloseAnimation` and `_selectorMoving`;
- the selected index `_ringSelected`;
- the arguments of the `MoveSelector` coroutine last started;
- whether each slot and the selector are active;
- the log of the points at which the component notifies `OnItemSelected`;
- where the selector was last put by an exact end-of-animation write (`Placement`).

It has three modules:

- `MenuModel` (menu_model.dfy) holds the state as a value (`Menu`) and the invariant `Valid`.
  It also holds one transition function per operation: `Start`, `Update` (one frame with its
  keys) and the ends of the three coroutines (`FinishOpen`, `FinishClose`, `FinishMove`).
  `Step` and `Run` apply an event, or a whole schedule of events. An event is a frame of key
  presses or the completion of a coroutine.
- `RingMenuComponent` (ring_menu.dfy) holds the class `RingMenu`. It has the source's fields,
  and its methods change them in place as the source does. For example, `Update` decrements
  the index, hands the unwrapped value to the move, then wraps it. Each of `Start`, `Update`,
  `FinishOpen`, `FinishClose` and `FinishMove` is proved to take the object's abstract value
  (`View`) to what the `MenuModel` transition gives. The slots are an `array<bool>` that
  `SetRingActive` updates in a loop, proved to leave every slot with the given flag.
- `MenuLaws` (menu_laws.dfy) holds the properties the component promises, stated over
  `MenuModel`.

When `Update` calls `StartCoroutine`, the coroutine runs at once up to its first `yield`. So a
Tab that opens the ring makes the slots and the selector active within the same frame
(`OpenRing` calls `SetRingActive(true)` before it first yields). For positive durations,
the first segments of the close and move coroutines only write interpolated positions and
alpha, which are not modelled.

Three behaviours of the code a reader may not expect:

- The move coroutine receives the index before it is wrapped, so it can receive -1 or N.
- An empty icon list is not rejected, so N >= 1 is part of the invariant.
- `OnItemSelected?.Invoke` (lines 65 and 173) calls nothing while no listener has subscribed.
  A listener that subscribes in its own `Start` after `RingMenu.Start` has run misses the
  start-up notification. The log records every point at which the component notifies, whether
  or not anyone listens.

## Model

| member | source | states |
|---|---|---|
| MenuModel.Update | Assets/Scripts/RingMenu.cs:68-98 | A frame keeps every invariant: at most one animation runs, the selector moves only on an open ring, the index stays in [0, N), slots and selector are active exactly when the menu is not closed (at event boundaries; see Left out), a move is one step whose target wraps to the selection, and every notified index is a slot index |
| MenuModel.FinishOpen | Assets/Scripts/RingMenu.cs:145-148 | The end of an opening keeps the invariant; the selector rests at the selected index |
| MenuModel.FinishClose | Assets/Scripts/RingMenu.cs:166-173 | The end of a closing keeps the invariant, including that only slot indices are notified |
| MenuModel.FinishMove | Assets/Scripts/RingMenu.cs:123-127 | The end of a selector move keeps the invariant; on the open ring the selector rests at an index congruent to the selection |
| MenuModel.Step | Assets/Scripts/RingMenu.cs:68-174 | One frame or coroutine completion keeps the invariant and the slot count; a completion is possible exactly when that coroutine is the one running |
| MenuModel.Run | Assets/Scripts/RingMenu.cs:68-174 | Every state reached along any possible schedule of frames and completions satisfies the invariant, in particular never two animations at once and no move on a closed ring |
| MenuModel.WrapStep | Assets/Scripts/RingMenu.cs:83-94 | Decrementing or incrementing an index of [0, N) and resetting it when it leaves the range is stepping modulo N |
| MenuModel.Start | Assets/Scripts/RingMenu.cs:49-66 | Start appends exactly the selected index to the log; from the field initialisers (`Fresh`, lines 30-33) with N >= 1 it yields a valid, Closed menu |
| RingMenuComponent.RingMenu.constructor | Assets/Scripts/RingMenu.cs:30-33 | The field initialisers: closed, not animating, index 0, no slots yet, nothing notified |
| RingMenuComponent.RingMenu.Start | Assets/Scripts/RingMenu.cs:49-66 | Creates N fresh slots, makes them and the selector inactive, and notifies the selected index once; from the field initialisers with N >= 1 it establishes the object invariant |
| RingMenuComponent.RingMenu.SetRingActive | Assets/Scripts/RingMenu.cs:182-190 | Every slot and the selector end with the given active flag |
| RingMenuComponent.RingMenu.Update | Assets/Scripts/RingMenu.cs:68-98 | The in-place update, including the decrement or increment followed by the range fix, gives exactly the abstract frame transition, whose index is the old one plus or minus one modulo N |
| RingMenuComponent.RingMenu.GetMenuIsClosed | Assets/Scripts/RingMenu.cs:105 | True exactly in the Closed phase: false throughout an opening, an open ring and a closing |
| RingMenuComponent.RingMenu.FinishMove | Assets/Scripts/RingMenu.cs:123-127 | The selector snaps to the move's unwrapped target and the move flag clears |
| RingMenuComponent.RingMenu.FinishOpen | Assets/Scripts/RingMenu.cs:145-148 | The selector snaps to the selected index and the open/close flag clears |
| RingMenuComponent.RingMenu.FinishClose | Assets/Scripts/RingMenu.cs:166-173 | The selector goes to the centre, everything becomes inactive, the flag clears, and then the selected index is notified |
| MenuLaws.StartSelectsFirstSlot | Assets/Scripts/RingMenu.cs:49-66 | After start-up the menu is valid, closed and hidden, index 0 is selected, and the log is exactly [0] |
| MenuLaws.UpdateActsExactlyWhen | Assets/Scripts/RingMenu.cs:70-95 | A frame changes the state if and only if no animation runs and either Tab is pressed or the ring is open and Q or E is pressed |
| MenuLaws.FramesWhileAnimatingChangeNothing | Assets/Scripts/RingMenu.cs:70 | While an animation runs, any number of frames with any keys change no field and start no animation |
| MenuLaws.TabHasPriority | Assets/Scripts/RingMenu.cs:72-78 | With Tab pressed, Q and E are ignored; Tab flips the open flag, starts the open/close animation and keeps the selection |
| MenuLaws.PreviousHasPriorityOverNext | Assets/Scripts/RingMenu.cs:80-88 | With Q pressed and Tab not pressed, E is ignored |
| MenuLaws.NavigationMovesOneStep | Assets/Scripts/RingMenu.cs:80-95 | Q or E on an open idle ring starts a one-step move from the old index to the unwrapped target and selects the target modulo N; nothing else changes |
| MenuLaws.PreviousFromFirstSelectsLast | Assets/Scripts/RingMenu.cs:80-87 | Q from index 0 selects N-1, and the move runs from 0 to -1 |
| MenuLaws.NextFromLastSelectsFirst | Assets/Scripts/RingMenu.cs:88-95 | E from index N-1 selects 0, and the move runs from N-1 to N |
| MenuLaws.PreviousThenNextRestores | Assets/Scripts/RingMenu.cs:80-95 | Q, its move's end, E, its move's end restore the selection; the selector rests at an index congruent to it; nothing is notified |
| MenuLaws.MoveEndsAtUnwrappedTarget | Assets/Scripts/RingMenu.cs:112-127 | A running move goes between indices one apart, its target lies in [-1, N], and finishing it puts the selector exactly at that target without changing the selection |
| MenuLaws.OnlyClosingNotifies | Assets/Scripts/RingMenu.cs:68-98 | No frame, no end of an opening and no end of a move notifies |
| MenuLaws.CloseCommitsSelection | Assets/Scripts/RingMenu.cs:155-174 | The end of a closing appends exactly the selected index to the log and leaves the menu closed, with every slot and the selector inactive and at the centre |
| MenuLaws.TabCycle | Assets/Scripts/RingMenu.cs:72-170 | Tab and the two animation ends cycle the phases Closed, Opening, Open, Closing, Closed |
| MenuLaws.RunNotifiesOncePerClose | Assets/Scripts/RingMenu.cs:170-173 | Along any possible schedule, earlier notifications are kept and exactly one is added per completed close |
| MenuLaws.OpenNavigateCloseCommits | Assets/Scripts/RingMenu.cs:68-174 | Opening, pressing Q and closing adds exactly one notification, carrying the new selection, and leaves the menu closed |

## Left out

- Positions of slots and selector (`SetPosDuringOpenClose`), `Mathf.Cos`/`Sin`/`Lerp` and the
  per-frame `frameTime` loops of the three coroutines are floating point. Each animation is one
  completion event. The selector's position is reduced to `Placement`, the exact index (or
  the centre) written at an animation's end. The positions that `SetRingActive` resets are not
  modelled.
- FinishOpen, FinishClose, FinishMove: each is one atomic event, but in the code each tail
  does its final writes, yields one frame (`WaitForEndOfFrame`), and only then clears its flag
  (and, for a close, notifies). The in-between state is not modelled. In it a closing ring is
  already hidden and centred while `GetMenuIsClosed` is still false, and a moving selector is
  already at `next` while `_selectorMoving` is still true. So the conjuncts of `Valid` about
  visibility and selector placement hold at event boundaries only, not at every instant.
  Frames in that gap drop their input, as in any other animation frame.
- Durations (`OpenCloseTime`, `SelectTime`), `Distance` and `OpenCLoseSpins` do not appear.
  Completion is an event that the schedule supplies, so a duration of zero or less is not
  distinguished from a positive one. With such a duration the frame loop is skipped, and the
  coroutine's first segment already does the tail's exact writes within the starting frame: the
  in-between state described above is then reached inside the Tab or Q/E frame.
- Alpha (`SetRingAlpha`, in `Start` and during the animations) is floating point and is not
  modelled. The open animation's last alpha write is the fraction reached in its last frame;
  nothing sets it to exactly 1.
- `Awake`'s singleton `Instance`, `Instantiate`, prefabs, sprites and `GetComponent` are
  engine calls without logic to verify.
- `Input.GetKeyDown` becomes the `Keys` parameter of a frame. `StartCoroutine` and the
  `WaitForEndOfFrame` resumption become the schedule of events given to `Run`, which allows any
  interleaving of frames and completions.
- Delegate subscription: `OnItemSelected` is a log of the points at which the component
  notifies; its subscribers, and whether any exists when it notifies, are not modelled.
- An empty icon list: N >= 1 is required, not handled. The source divides by the icon count
  and does not reject zero.
- Assets/Scripts/ItemTest.cs and Assets/ItemTest.cs are demo listeners that only subscribe and
  read `GetMenuIsClosed`, and Assets/Scripts/RingItem.cs is a holder of two images; none of them
  is part of this model.
