/** The ring menu's discrete state machine, as values.

    A `Menu` is what the RingMenu component holds between two events (a frame of input, or the
    completion of a coroutine's tail, taken as one atomic step): the four flags and the
    selected index of the component, the arguments of the selector-move coroutine last started,
    where the last exact end-of-animation write left the selector, which slots and whether the
    selector are active (visible), and the log of the points at which the component notifies
    OnItemSelected (whether or not a listener is subscribed then).
    The per-frame float interpolation of positions and alpha is not modelled: each animation is
    one abstract "done" step that performs the animation's final writes. */
module MenuModel {

  datatype Option<T> = None | Some(value: T)

  /** The keys reported pressed (GetKeyDown) in one frame. */
  datatype Keys = Keys(tab: bool, q: bool, e: bool)

  /** Where the selector was last put by an exact end-of-animation write. */
  datatype Placement =
    | Unplaced            // never written since instantiation: the prefab's own position
    | Centre              // at the anchor (the close animation ends at distance 0)
    | OnRing(index: int)  // on the ring, at the angle of this index value (not wrapped)

  /** The menu states named by its public contract, derived from the two open/close flags. */
  datatype Phase = Closed | Opening | Open | Closing

  datatype Menu = Menu(
    n: nat,                   // number of icons, hence of slots
    ringOpen: bool,
    openCloseAnimation: bool,
    selectorMoving: bool,
    selected: int,
    moveLast: int,            // `last` argument of the MoveSelector coroutine last started
    moveNext: int,            // `next` argument of the MoveSelector coroutine last started
    selectorAt: Placement,
    selectorActive: bool,
    slots: seq<bool>,         // active flag of every slot
    log: seq<int>)            // every OnItemSelected notification, oldest first

  function PhaseOf(m: Menu): Phase
  {
    if m.openCloseAnimation then
      if m.ringOpen then Opening else Closing
    else
      if m.ringOpen then Open else Closed
  }

  /** Some animation coroutine is running, so frame input is dropped. */
  predicate Busy(m: Menu)
  {
    m.openCloseAnimation || m.selectorMoving
  }

  /** n slots, all with the same active flag. */
  function Uniform(n: nat, active: bool): (s: seq<bool>)
    ensures |s| == n
    ensures forall i :: 0 <= i < n ==> s[i] == active
  {
    seq(n, _ => active)
  }

  /** The invariant the component keeps from Start on, at every event boundary. */
  predicate Valid(m: Menu)
  {
    && m.n >= 1
    && 0 <= m.selected < m.n
    // at most one animation at a time, and the selector only moves on an open ring
    && !(m.openCloseAnimation && m.selectorMoving)
    && (m.selectorMoving ==> m.ringOpen)
    // slots and selector are visible exactly when the menu is not closed
    && m.slots == Uniform(m.n, PhaseOf(m) != Closed)
    && m.selectorActive == (PhaseOf(m) != Closed)
    // a move goes one step from the old index, and its target wraps to the selected index
    && (m.selectorMoving ==>
          && 0 <= m.moveLast < m.n
          && (m.moveNext == m.moveLast - 1 || m.moveNext == m.moveLast + 1)
          && m.moveNext % m.n == m.selected)
    // on a fully open ring the selector rests at (an index congruent to) the selection;
    // during a move, at the index the move started from
    && (PhaseOf(m) == Open ==>
          && m.selectorAt.OnRing?
          && m.selectorAt.index % m.n == (if m.selectorMoving then m.moveLast else m.selected))
    // only indices of existing slots are ever notified
    && (forall i :: 0 <= i < |m.log| ==> 0 <= m.log[i] < m.n)
  }

  /** The component as its field initialisers leave it, before Start has created the slots. */
  function Fresh(n: nat): Menu
  {
    Menu(n, false, false, false, 0, 0, 0, Unplaced, false, [], [])
  }

  /** Start: create the n slots, make slots and selector inactive, notify the selected index. */
  function Start(m: Menu): (r: Menu)
    ensures r.log == m.log + [m.selected]
    ensures m == Fresh(m.n) && m.n >= 1 ==> Valid(r) && PhaseOf(r) == Closed
  {
    m.(slots := Uniform(m.n, false), selectorActive := false, log := m.log + [m.selected])
  }

  /** Begin a selector move from the selected index to `target`, one step away; the selected
      index becomes `target` wrapped modulo n, while the move keeps the unwrapped target. */
  function StartMove(m: Menu, target: int): Menu
    requires m.n >= 1
  {
    m.(selectorMoving := true, moveLast := m.selected, moveNext := target, selected := target % m.n)
  }

  /** One frame of Update with the given keys. Opening also runs the open coroutine up to its
      first yield, which makes the slots and the selector active; the first segments of the close
      and move coroutines only write interpolated positions and alpha. */
  function Update(m: Menu, keys: Keys): (r: Menu)
    requires Valid(m)
    ensures Valid(r)
  {
    if Busy(m) then m
    else if keys.tab then
      if m.ringOpen then m.(ringOpen := false, openCloseAnimation := true)
      else m.(ringOpen := true, openCloseAnimation := true,
              slots := Uniform(m.n, true), selectorActive := true)
    else if !m.ringOpen then m
    else if keys.q then StartMove(m, m.selected - 1)
    else if keys.e then StartMove(m, m.selected + 1)
    else m
  }

  /** Tail of the open coroutine: the exact final layout puts the selector at the selected
      index, then the open/close flag clears. */
  function FinishOpen(m: Menu): (r: Menu)
    requires Valid(m) && m.openCloseAnimation && m.ringOpen
    ensures Valid(r)
  {
    m.(selectorAt := OnRing(m.selected), openCloseAnimation := false)
  }

  /** Tail of the close coroutine: everything collapses to the centre and becomes inactive,
      the open/close flag clears, and the selected index is notified. */
  function FinishClose(m: Menu): (r: Menu)
    requires Valid(m) && m.openCloseAnimation && !m.ringOpen
    ensures Valid(r)
  {
    m.(selectorAt := Centre, slots := Uniform(m.n, false), selectorActive := false,
       openCloseAnimation := false, log := m.log + [m.selected])
  }

  /** Tail of the selector-move coroutine: the selector snaps to the unwrapped target. */
  function FinishMove(m: Menu): (r: Menu)
    requires Valid(m) && m.selectorMoving
    ensures Valid(r)
  {
    m.(selectorAt := OnRing(m.moveNext), selectorMoving := false)
  }

  /** What can happen to the component between two observations: a frame of input, or the
      completion of one of the three coroutines. */
  datatype Event = Frame(keys: Keys) | OpenDone | CloseDone | MoveDone

  /** One event; None when it names a coroutine that is not running (it cannot complete). */
  function Step(m: Menu, ev: Event): (r: Option<Menu>)
    requires Valid(m)
    ensures r.Some? ==> Valid(r.value) && r.value.n == m.n
    ensures r.None? <==> !ev.Frame? && !Completes(m, ev)
  {
    match ev
    case Frame(keys) => Some(Update(m, keys))
    case OpenDone => if m.openCloseAnimation && m.ringOpen then Some(FinishOpen(m)) else None
    case CloseDone => if m.openCloseAnimation && !m.ringOpen then Some(FinishClose(m)) else None
    case MoveDone => if m.selectorMoving then Some(FinishMove(m)) else None
  }

  /** The coroutine named by `ev` is the one running in `m`. */
  predicate Completes(m: Menu, ev: Event)
  {
    match ev
    case Frame(_) => false
    case OpenDone => PhaseOf(m) == Opening
    case CloseDone => PhaseOf(m) == Closing
    case MoveDone => m.selectorMoving
  }

  /** A whole schedule of events; None when some completion in it is impossible. */
  function Run(m: Menu, evs: seq<Event>): (r: Option<Menu>)
    requires Valid(m)
    ensures r.Some? ==> Valid(r.value) && r.value.n == m.n
    decreases |evs|
  {
    if evs == [] then Some(m)
    else
      match Step(m, evs[0])
      case None => None
      case Some(m1) => Run(m1, evs[1..])
  }

  /** Stepping an index of [0, n) by one and wrapping it back is arithmetic modulo n. */
  lemma WrapStep(k: int, n: int)
    requires 0 <= k < n
    ensures (k - 1) % n == if k - 1 < 0 then n - 1 else k - 1
    ensures (k + 1) % n == if k + 1 >= n then 0 else k + 1
  {
  }
}
