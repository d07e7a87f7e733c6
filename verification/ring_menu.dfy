/** The RingMenu component as an object: the fields its Update and coroutines change in place,
    and one method per operation, each proved to take the component's abstract value (View) to
    the value the corresponding MenuModel transition gives. */
module RingMenuComponent {
  import MenuModel

  class RingMenu {
    /** Icons.Length: the number of slots, fixed by the configuration. */
    const iconCount: nat

    var ringOpenCloseAnimation: bool
    var ringOpen: bool
    var selectorMoving: bool
    var ringSelected: int

    /** The arguments of the MoveSelector coroutine last started. */
    var moveLast: int
    var moveNext: int

    var selectorAt: MenuModel.Placement
    var selectorActive: bool
    var slotActive: array<bool>

    /** Every point at which OnItemSelected is notified, oldest first, whether or not a
        listener is subscribed then. */
    var itemSelected: seq<int>

    /** The abstract value of the component. */
    function View(): MenuModel.Menu
      reads this, slotActive
    {
      MenuModel.Menu(iconCount, ringOpen, ringOpenCloseAnimation, selectorMoving, ringSelected,
                     moveLast, moveNext, selectorAt, selectorActive, slotActive[..], itemSelected)
    }

    predicate Valid()
      reads this, slotActive
    {
      slotActive.Length == iconCount && MenuModel.Valid(View())
    }

    /** The field initialisers; the slots do not exist until Start. */
    constructor (iconCount: nat)
      ensures View() == MenuModel.Fresh(iconCount)
    {
      this.iconCount := iconCount;
      ringOpenCloseAnimation, ringOpen, selectorMoving := false, false, false;
      ringSelected := 0;
      moveLast, moveNext := 0, 0;
      selectorAt := MenuModel.Unplaced;
      selectorActive := false;
      slotActive := new bool[0];
      itemSelected := [];
    }

    /** Creates the slots, hides them and the selector, and notifies the selected index. */
    method Start()
      modifies this
      ensures fresh(slotActive) && slotActive.Length == iconCount
      ensures View() == MenuModel.Start(old(View()))
      ensures old(View()) == MenuModel.Fresh(iconCount) && iconCount >= 1 ==> Valid()
    {
      slotActive := new bool[iconCount];
      SetRingActive(false);
      itemSelected := itemSelected + [ringSelected];
    }

    /** Sets every slot and the selector active or inactive. */
    method SetRingActive(active: bool)
      requires slotActive.Length == iconCount
      modifies slotActive, this`selectorActive
      ensures slotActive[..] == MenuModel.Uniform(iconCount, active)
      ensures selectorActive == active
    {
      var i := 0;
      while i < iconCount
        invariant 0 <= i <= iconCount
        invariant forall j :: 0 <= j < i ==> slotActive[j] == active
      {
        slotActive[i] := active;
        i := i + 1;
      }
      selectorActive := active;
    }

    /** One frame: Tab toggles the ring, otherwise Q or E moves the selection on an open ring;
        all input is dropped while an animation runs. The selected index is decremented or
        incremented, the move coroutine is given the unwrapped value, and only then is the
        index wrapped back into range. */
    method Update(keys: MenuModel.Keys)
      requires Valid()
      modifies this, slotActive
      ensures slotActive == old(slotActive)
      ensures View() == MenuModel.Update(old(View()), keys)
      ensures Valid()
    {
      MenuModel.WrapStep(ringSelected, iconCount);
      if !ringOpenCloseAnimation && !selectorMoving {
        if keys.tab {
          ringOpenCloseAnimation := true;
          ringOpen := !ringOpen;
          if ringOpen {
            // the open coroutine runs up to its first yield at once
            SetRingActive(true);
          }
        } else if ringOpen {
          if keys.q {
            selectorMoving := true;
            ringSelected := ringSelected - 1;
            moveLast, moveNext := ringSelected + 1, ringSelected;
            if ringSelected < 0 {
              ringSelected := iconCount - 1;
            }
          } else if keys.e {
            selectorMoving := true;
            ringSelected := ringSelected + 1;
            moveLast, moveNext := ringSelected - 1, ringSelected;
            if ringSelected >= iconCount {
              ringSelected := 0;
            }
          }
        }
      }
    }

    /** True when the menu is closed and not animating. */
    function GetMenuIsClosed(): (closed: bool)
      reads this, slotActive
      ensures closed <==> MenuModel.PhaseOf(View()) == MenuModel.Closed
    {
      !ringOpen && !ringOpenCloseAnimation
    }

    /** End of the selector-move coroutine: exact final position, then the flag clears. */
    method FinishMove()
      requires Valid() && selectorMoving
      modifies this`selectorAt, this`selectorMoving
      ensures Valid()
      ensures View() == MenuModel.FinishMove(old(View()))
    {
      selectorAt := MenuModel.OnRing(moveNext);
      selectorMoving := false;
    }

    /** End of the open coroutine: exact final layout, then the flag clears. */
    method FinishOpen()
      requires Valid() && ringOpenCloseAnimation && ringOpen
      modifies this`selectorAt, this`ringOpenCloseAnimation
      ensures Valid()
      ensures View() == MenuModel.FinishOpen(old(View()))
    {
      selectorAt := MenuModel.OnRing(ringSelected);
      ringOpenCloseAnimation := false;
    }

    /** End of the close coroutine: collapse to the centre, hide everything, clear the flag,
        then notify listeners of the selected index. */
    method FinishClose()
      requires Valid() && ringOpenCloseAnimation && !ringOpen
      modifies this`selectorAt, this`selectorActive, this`ringOpenCloseAnimation,
               this`itemSelected, slotActive
      ensures Valid()
      ensures View() == MenuModel.FinishClose(old(View()))
    {
      selectorAt := MenuModel.Centre;
      SetRingActive(false);
      ringOpenCloseAnimation := false;
      itemSelected := itemSelected + [ringSelected];
    }
  }
}
