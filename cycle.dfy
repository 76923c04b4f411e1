/**
  The per-frame arrow-cycle hook `arrow_cycle_handle` and its one-frame
  deferred magic reconciliation `handle_frame_delay`, over the process-wide
  state `g_arrow_cycle_state`.

  Each operation has a specification function on value snapshots
  (`CycleView`, `WorldState`); the methods of `ArrowCycleState` update the
  objects in place and are proved to agree with those functions.
*/
module ArrowCycle {
  import opened Wrappers
  import opened Machine
  import opened Reloc
  import opened Catalog
  import opened World

  const MAGIC_CONSUME_NONE: U8 := 0
  const MAGIC_CONSUME_ARROW: U8 := 3

  /** A snapshot of `struct arrow_cycle_state`. */
  datatype CycleView = CycleView(frameDelay: U16, magicCost: I8, arrow: Option<ActorId>)

  /** The initial (and cleared) state. */
  const Idle := CycleView(0, 0, None)

  /** The state invariant: idle or armed for exactly one frame, with an arrow exactly when armed. */
  predicate Consistent(st: CycleView) {
    (st.frameDelay == 0 || st.frameDelay == 1) && (st.arrow.Some? <==> st.frameDelay == 1)
  }

  /** What the arrow overlay's init entry leaves in `arrow->child` must be an actor of the table. */
  predicate ChildOk(w: WorldState, initChild: Option<ActorId>) {
    initChild.Some? ==> initChild.value in w.actors
  }

  /** Specification of `update_c_button`: show `info` on the player's item button and set both action params. */
  function ButtonEffect(w: WorldState, info: ArrowInfo): (r: WorldState)
    requires WF(w)
    ensures WF(r)
    ensures r.buttonItems == w.buttonItems[w.itemButton := info.icon]
    ensures r.itemActionParam == info.action && r.heldItemActionParam == info.action
    ensures r == w.(buttonItems := r.buttonItems, itemActionParam := info.action,
                    heldItemActionParam := info.action, calls := w.calls + [UpdateItemButton(w.itemButton)])
  {
    w.(buttonItems := w.buttonItems[w.itemButton := info.icon],
       calls := w.calls + [UpdateItemButton(w.itemButton)],
       itemActionParam := info.action,
       heldItemActionParam := info.action)
  }

  /**
    Specification of `call_arrow_actor_ctor`: when the arrow overlay's init
    record resolves and its init entry is not NULL, the destroy and then the
    init entry run on the arrow; their only modelled effect is the arrow's
    new `child` (`initChild`). Otherwise nothing happens and 0 is returned.
  */
  function CtorEffect(w: WorldState, arrow: ActorId, initChild: Option<ActorId>): (r: (bool, WorldState))
    requires WF(w) && ChildOk(w, initChild) && arrow in w.actors
    ensures WF(r.1)
    ensures r.0 <==> ResolveActorInit(w.arrowOverlay).Some? && ResolveActorInit(w.arrowOverlay).value in w.initProcs
    ensures !r.0 ==> r.1 == w
    ensures r.0 ==> && r.1.calls == w.calls + [ArrowDestroy(arrow), ArrowInit(arrow)]
                    && arrow in r.1.actors && r.1.actors[arrow].child == initChild
    ensures r.1 == w.(calls := r.1.calls, actors := r.1.actors) && r.1.actors.Keys == w.actors.Keys
  {
    var init := ResolveActorInit(w.arrowOverlay);
    if init.Some? && init.value in w.initProcs then
      (true, w.(calls := w.calls + [ArrowDestroy(arrow), ArrowInit(arrow)],
                actors := w.actors[arrow := w.actors[arrow].(child := initChild)]))
    else
      (false, w)
  }

  /**
    Specification of `handle_frame_delay`: if the captured arrow is still in
    the item-action actor list and names a variant, delete its special child,
    set the magic consume state, and apply `magic += captured; magic -= cost`
    (two int8_t stores).
  */
  function FrameDelayEffect(w: WorldState, captured: I8, arrow: Option<ActorId>): (r: WorldState)
    requires WF(w)
    ensures WF(r)
    ensures !(arrow.Some? && arrow.value in w.actorLists[ACTORTYPE_ITEMACTION]) ==> r == w
    ensures r.items == w.items && r.buttonItems == w.buttonItems
    ensures r == w.(actors := r.actors, calls := r.calls, magic := r.magic, magicConsumeState := r.magicConsumeState)
  {
    if !(arrow.Some? && arrow.value in w.actorLists[ACTORTYPE_ITEMACTION]) then w
    else
      var cur := InfoOf(w.actors[arrow.value].variable);
      if cur.None? then w
      else ReconcileEffect(DropSpecialEffect(w, arrow.value), captured, cur.value)
  }

  /** Lines 117-121: delete the arrow's special child actor, if any, and unlink it. */
  function DropSpecialEffect(w: WorldState, id: ActorId): (r: WorldState)
    requires WF(w) && id in w.actors
    ensures WF(r)
    ensures id in r.actors && r.actors[id].child.None?
    ensures w.actors[id].child.None? ==> r == w
    ensures w.actors[id].child.Some? ==> r.calls == w.calls + [DeleteActor(w.actors[id].child.value)]
    ensures r == w.(calls := r.calls, actors := r.actors) && r.actors == w.actors[id := w.actors[id].(child := None)]
  {
    var special := w.actors[id].child;
    if special.Some? then
      w.(calls := w.calls + [DeleteActor(special.value)],
         actors := w.actors[id := w.actors[id].(child := None)])
    else w
  }

  /** Lines 123-127: set the consume state for the variant now held and correct magic by `captured - cost(cur)`. */
  function ReconcileEffect(w: WorldState, captured: I8, cur: ArrowInfo): (r: WorldState)
    ensures WF(w) ==> WF(r)
    ensures r == w.(magicConsumeState := r.magicConsumeState, magic := r.magic)
    ensures r.magicConsumeState == MAGIC_CONSUME_NONE <==> cur.item == ITEM_BOW
  {
    var mode := if cur.item != ITEM_BOW then MAGIC_CONSUME_ARROW else MAGIC_CONSUME_NONE;
    w.(magicConsumeState := mode, magic := WrapI8(WrapI8(w.magic + captured) - MagicCost(cur)))
  }

  /** The gate of lines 147-160: full HUD, an attached arrow naming a variant, a bow item on the button, R pressed. */
  predicate CycleRequested(w: WorldState)
    requires WF(w)
    ensures CycleRequested(w) ==> AttachedArrow(w).Some? && InfoOf(w.actors[AttachedArrow(w).value].variable).Some?
  {
    && w.hudAllVisible
    && AttachedArrow(w).Some?
    && IsVariant(w.actors[AttachedArrow(w).value].variable)
    && IsArrowItem(w.buttonItems[w.itemButton])
    && w.padPressedR
  }

  /** The condition of line 169: the plain bow is held and owned but the button shows some other bow item. */
  predicate BowShownWrongly(w: WorldState, cur: ArrowInfo)
    requires WF(w)
  {
    cur.variable == 2 && w.buttonItems[w.itemButton] != ITEM_BOW && w.items[SLOT_BOW] == ITEM_BOW
  }

  /** The display correction of lines 169-170: back to the plain bow when the bow is owned but not shown. */
  function BowCorrection(w: WorldState, cur: ArrowInfo): (r: WorldState)
    requires WF(w)
    ensures WF(r)
    ensures r.magic == w.magic && r.magicConsumeState == w.magicConsumeState
    ensures r.items == w.items && r.actors == w.actors
    ensures r.padPressedR == w.padPressedR && r.rawPadR == w.rawPadR
    ensures BowShownWrongly(w, cur) ==>
              && r.buttonItems == w.buttonItems[w.itemButton := ITEM_BOW]
              && r.itemActionParam == 8 && r.heldItemActionParam == 8
              && r.calls == w.calls + [UpdateItemButton(w.itemButton)]
    ensures !BowShownWrongly(w, cur) ==> r == w
    ensures r == w.(buttonItems := r.buttonItems, itemActionParam := r.itemActionParam,
                    heldItemActionParam := r.heldItemActionParam, calls := r.calls)
  {
    if BowShownWrongly(w, cur) then ButtonEffect(w, Arrows[0]) else w
  }

  /** The error cue of lines 171 and 176: one sound-effect call is logged and nothing else changes. */
  function RejectCue(w: WorldState): (r: WorldState)
    ensures r.calls == w.calls + [PlaySfx(SFX_REJECT)]
    ensures r == w.(calls := r.calls)
  {
    w.(calls := w.calls + [PlaySfx(SFX_REJECT)])
  }

  /** Lines 180-186: set the new variable, rebuild the arrow, hide its special child, update the button. */
  function SwapEffect(w: WorldState, id: ActorId, next: ArrowInfo, initChild: Option<ActorId>): (r: WorldState)
    requires WF(w) && ChildOk(w, initChild) && id in w.actors
    ensures WF(r)
    ensures id in r.actors && r.actors[id].variable == next.variable
    ensures r.magic == w.magic && r.magicConsumeState == w.magicConsumeState && r.items == w.items
    ensures r.padPressedR == w.padPressedR && r.rawPadR == w.rawPadR
    ensures r.buttonItems == w.buttonItems[w.itemButton := next.icon]
    ensures r.itemActionParam == next.action && r.heldItemActionParam == next.action
    ensures var ran := ResolveActorInit(w.arrowOverlay).Some? && ResolveActorInit(w.arrowOverlay).value in w.initProcs;
            && r.calls == w.calls + (if ran then [ArrowDestroy(id), ArrowInit(id)] else []) + [UpdateItemButton(w.itemButton)]
            && r.actors[id].child == (if ran then initChild else w.actors[id].child)
    ensures r.actors[id].child.Some? ==> !r.actors[r.actors[id].child.value].hasDrawProc
    ensures r == w.(actors := r.actors, buttonItems := r.buttonItems, itemActionParam := r.itemActionParam,
                    heldItemActionParam := r.heldItemActionParam, calls := r.calls)
    ensures r.actors.Keys == w.actors.Keys
    ensures forall a :: a in w.actors && a != id && Some(a) != r.actors[id].child ==> r.actors[a] == w.actors[a]
  {
    var w1 := w.(actors := w.actors[id := w.actors[id].(variable := next.variable)]);
    ButtonEffect(HideSpecialEffect(CtorEffect(w1, id, initChild).1, id), next)
  }

  /** Lines 182-184: the special child's draw routine is cleared. */
  function HideSpecialEffect(w: WorldState, id: ActorId): (r: WorldState)
    requires WF(w) && id in w.actors
    ensures WF(r)
    ensures r == w.(actors := r.actors) && r.actors.Keys == w.actors.Keys
    ensures forall a :: a in w.actors ==> r.actors[a] == w.actors[a].(hasDrawProc := r.actors[a].hasDrawProc)
    ensures w.actors[id].child.Some? ==> !r.actors[w.actors[id].child.value].hasDrawProc
  {
    var special := w.actors[id].child;
    if special.Some? then w.(actors := w.actors[special.value := w.actors[special.value].(hasDrawProc := false)])
    else w
  }

  /** Lines 164-190, once the gate has passed and the R press has been consumed. */
  function CycleRequest(st: CycleView, w: WorldState, id: ActorId, initChild: Option<ActorId>): (r: (CycleView, WorldState))
    requires WF(w) && ChildOk(w, initChild) && id in w.actors && IsVariant(w.actors[id].variable)
    requires st.frameDelay == 0
    ensures WF(r.1)
    ensures r.1.items == w.items && r.1.magic == w.magic
    ensures r.1 == w.(actors := r.1.actors, buttonItems := r.1.buttonItems, itemActionParam := r.1.itemActionParam,
                      heldItemActionParam := r.1.heldItemActionParam, calls := r.1.calls)
    ensures r.1.actors.Keys == w.actors.Keys
    ensures r.0 == st || r.0 == CycleView(1, MagicCost(InfoOf(w.actors[id].variable).value), Some(id))
  {
    var v := w.actors[id].variable;
    var cur := InfoOf(v).value;   // never NULL: the gate admits only variants
    var next := SelectNext(v, w.items, w.magic);
    if next.None? || cur.variable == next.value.variable then
      (st, RejectCue(BowCorrection(w, cur)))
    else if cur.item == ITEM_BOW && w.magic < MagicCost(next.value) then
      (st, RejectCue(w))
    else
      (CycleView(st.frameDelay + 1, MagicCost(cur), Some(id)), SwapEffect(w, id, next.value, initChild))
  }

  /** Specification of `arrow_cycle_handle`: one frame of the hook. */
  function HandleStep(st: CycleView, w: WorldState, initChild: Option<ActorId>): (r: (CycleView, WorldState))
    requires WF(w) && ChildOk(w, initChild)
    ensures WF(r.1)
    ensures r.1.items == w.items
    ensures st.frameDelay == 0 ==> r.1.magic == w.magic
    ensures st.frameDelay >= 1 ==> r.0 == Idle
  {
    if st.frameDelay >= 1 then
      (Idle, FrameDelayEffect(w, st.magicCost, st.arrow))
    else if !CycleRequested(w) then
      (st, w)
    else
      CycleRequest(st, w.(rawPadR := false, padPressedR := false), AttachedArrow(w).value, initChild)
  }

  /** `update_c_button`. */
  method UpdateCButton(w: World, info: ArrowInfo)
    requires w.Valid()
    modifies w
    ensures w.View() == ButtonEffect(old(w.View()), info)
  {
    w.buttonItems := w.buttonItems[w.itemButton := info.icon];
    w.calls := w.calls + [UpdateItemButton(w.itemButton)];
    w.itemActionParam := info.action;
    w.heldItemActionParam := info.action;
  }

  /** `call_arrow_actor_ctor`: returns whether the constructor ran. */
  method CallArrowActorCtor(w: World, arrow: ActorId, initChild: Option<ActorId>) returns (ok: bool)
    requires w.Valid() && ChildOk(w.View(), initChild) && arrow in w.actors
    modifies w
    ensures (ok, w.View()) == CtorEffect(old(w.View()), arrow, initChild)
  {
    var init := ResolveActorInit(w.arrowOverlay);
    if init.Some? && init.value in w.initProcs {
      w.calls := w.calls + [ArrowDestroy(arrow), ArrowInit(arrow)];
      w.actors := w.actors[arrow := w.actors[arrow].(child := initChild)];
      return true;
    }
    return false;
  }

  /** `g_arrow_cycle_state` and the two routines that use it. */
  class ArrowCycleState {
    var frameDelay: U16
    var magicCost: I8
    var arrow: Option<ActorId>

    function View(): CycleView
      reads this
    {
      CycleView(frameDelay, magicCost, arrow)
    }

    predicate Valid()
      reads this
    {
      Consistent(View())
    }

    /** The static initialiser of lines 9-13. */
    constructor ()
      ensures View() == Idle && Valid()
    {
      frameDelay := 0;
      magicCost := 0;
      arrow := None;
    }

    /** `handle_frame_delay`. */
    method HandleFrameDelay(w: World, target: Option<ActorId>)
      requires w.Valid()
      modifies w
      ensures w.Valid()
      ensures w.View() == FrameDelayEffect(old(w.View()), magicCost, target)
    {
      var present := DoesActorExist(target, w, ACTORTYPE_ITEMACTION);
      if !present {
        return;
      }
      var curInfo := GetInfo(w.actors[target.value].variable);
      if target.Some? && curInfo.Some? {
        DropSpecial(w, target.value);
        Reconcile(w, magicCost, curInfo.value);
      }
    }

    /** `arrow_cycle_handle`. */
    method Handle(w: World, initChild: Option<ActorId>)
      requires Valid() && w.Valid() && ChildOk(w.View(), initChild)
      modifies this, w
      ensures Valid() && w.Valid()
      ensures (View(), w.View()) == HandleStep(old(View()), old(w.View()), initChild)
    {
      if frameDelay >= 1 {
        HandleFrameDelay(w, arrow);
        arrow := None;
        frameDelay := 0;
        magicCost := 0;
        return;
      }

      if !w.hudAllVisible {
        return;
      }
      var found := FindArrow(w);
      if found.None? {
        return;
      }
      var id := found.value;
      var variable := w.actors[id].variable;
      if !(2 <= variable && variable < 6) {
        return;
      }
      if !IsArrowItem(w.buttonItems[w.itemButton]) {
        return;
      }
      if !w.padPressedR {
        return;
      }
      w.padPressedR := false;
      w.rawPadR := false;
      RequestCycle(w, id, initChild);
    }

    /** Lines 164-190 of `arrow_cycle_handle`, once the R press has been consumed. */
    method RequestCycle(w: World, id: ActorId, initChild: Option<ActorId>)
      requires w.Valid() && ChildOk(w.View(), initChild) && id in w.actors && IsVariant(w.actors[id].variable)
      requires frameDelay == 0
      modifies this, w
      ensures View() == CycleRequest(old(View()), old(w.View()), id, initChild).0
      ensures w.View() == CycleRequest(old(View()), old(w.View()), id, initChild).1
    {
      var variable := w.actors[id].variable;
      var curInfo := GetInfo(variable);
      var nextInfo := GetNextInfo(variable, w.items, w.magic);

      if curInfo.None? || nextInfo.None? || curInfo.value.variable == nextInfo.value.variable {
        CorrectBowButton(w, curInfo.value);
        PlayRejectCue(w);
        return;
      }

      if curInfo.value.item == ITEM_BOW && w.magic < MagicCost(nextInfo.value) {
        PlayRejectCue(w);
        return;
      }

      SwapArrow(w, id, nextInfo.value, initChild);
      Arm(id, MagicCost(curInfo.value));
    }

    /** Lines 188-190 of `arrow_cycle_handle`: remember the arrow and the pre-swap cost for the next frame. */
    method Arm(target: ActorId, cost: I8)
      requires frameDelay == 0
      modifies this
      ensures View() == CycleView(old(frameDelay) + 1, cost, Some(target))
    {
      arrow := Some(target);
      frameDelay := frameDelay + 1;
      magicCost := cost;
    }
  }

  /** Lines 169-170 of `arrow_cycle_handle`. */
  method CorrectBowButton(w: World, cur: ArrowInfo)
    requires w.Valid()
    modifies w
    ensures w.Valid()
    ensures w.View() == BowCorrection(old(w.View()), cur)
  {
    if cur.variable == 2 && w.buttonItems[w.itemButton] != ITEM_BOW && w.items[SLOT_BOW] == ITEM_BOW {
      UpdateCButton(w, Arrows[0]);
    }
  }

  /** Lines 171 and 176 of `arrow_cycle_handle`: the error cue. */
  method PlayRejectCue(w: World)
    requires w.Valid()
    modifies w
    ensures w.Valid()
    ensures w.View() == RejectCue(old(w.View()))
  {
    w.calls := w.calls + [PlaySfx(SFX_REJECT)];
  }

  /** Lines 180-186 of `arrow_cycle_handle`: the swap itself. The constructor's result is ignored. */
  method SwapArrow(w: World, id: ActorId, next: ArrowInfo, initChild: Option<ActorId>)
    requires w.Valid() && ChildOk(w.View(), initChild) && id in w.actors
    modifies w
    ensures w.Valid()
    ensures w.View() == SwapEffect(old(w.View()), id, next, initChild)
  {
    w.actors := w.actors[id := w.actors[id].(variable := next.variable)];
    var _ := CallArrowActorCtor(w, id, initChild);
    HideSpecial(w, id);
    UpdateCButton(w, next);
  }

  /** Lines 182-184 of `arrow_cycle_handle`. */
  method HideSpecial(w: World, id: ActorId)
    requires w.Valid() && id in w.actors
    modifies w
    ensures w.Valid()
    ensures w.View() == HideSpecialEffect(old(w.View()), id)
  {
    var special := w.actors[id].child;
    if special.Some? {
      w.actors := w.actors[special.value := w.actors[special.value].(hasDrawProc := false)];
    }
  }

  /** Lines 117-121 of `handle_frame_delay`. */
  method DropSpecial(w: World, id: ActorId)
    requires w.Valid() && id in w.actors
    modifies w
    ensures w.Valid()
    ensures w.View() == DropSpecialEffect(old(w.View()), id)
  {
    var special := w.actors[id].child;
    if special.Some? {
      w.calls := w.calls + [DeleteActor(special.value)];
      w.actors := w.actors[id := w.actors[id].(child := None)];
    }
  }

  /** Lines 123-127 of `handle_frame_delay`. */
  method Reconcile(w: World, captured: I8, cur: ArrowInfo)
    requires w.Valid()
    modifies w
    ensures w.Valid()
    ensures w.View() == ReconcileEffect(old(w.View()), captured, cur)
  {
    if cur.item != ITEM_BOW {
      w.magicConsumeState := MAGIC_CONSUME_ARROW;
    } else {
      w.magicConsumeState := MAGIC_CONSUME_NONE;
    }
    w.magic := WrapI8(w.magic + captured);
    w.magic := WrapI8(w.magic - MagicCost(cur));
  }

}
