/**
  What `arrow_cycle_handle` promises, stated and proved on its specification
  `HandleStep`: the state invariant, the drain of an armed state, the
  reconciliation of magic, the swap and the two rejection paths, the net
  effect of a swap followed by its reconciliation one frame later, and
  worked scenarios on a small concrete world.
*/
module ArrowCycleProperties {
  import opened Wrappers
  import opened Machine
  import opened Catalog
  import opened World
  import opened ArrowCycle

  /** After every call the state is idle or armed for one frame, holding an arrow exactly when armed; an armed call always ends idle. */
  lemma HandleKeepsConsistent(st: CycleView, w: WorldState, initChild: Option<ActorId>)
    requires WF(w) && ChildOk(w, initChild) && Consistent(st)
    ensures Consistent(HandleStep(st, w, initChild).0)
    ensures st.frameDelay >= 1 ==> HandleStep(st, w, initChild).0 == Idle
  {
    if st.frameDelay == 0 && CycleRequested(w) {
      var w1 := w.(rawPadR := false, padPressedR := false);
      var id := AttachedArrow(w).value;
      assert HandleStep(st, w, initChild) == CycleRequest(st, w1, id, initChild);
    }
  }

  /**
    The hook touches only the actors, the button item and action params, the
    call log, magic and its consume state, and the R flags: the actor lists,
    the HUD mode, the player, the item button, the inventory, the arrow
    overlay and the init records are never changed, and no actor appears or
    disappears.
  */
  lemma HandleFrame(st: CycleView, w: WorldState, initChild: Option<ActorId>)
    requires WF(w) && ChildOk(w, initChild)
    ensures var r := HandleStep(st, w, initChild).1;
            && r == w.(actors := r.actors, buttonItems := r.buttonItems, itemActionParam := r.itemActionParam,
                       heldItemActionParam := r.heldItemActionParam, calls := r.calls, magic := r.magic,
                       magicConsumeState := r.magicConsumeState, padPressedR := r.padPressedR, rawPadR := r.rawPadR)
            && r.actors.Keys == w.actors.Keys
  {
    if st.frameDelay == 0 && CycleRequested(w) {
      var w1 := w.(rawPadR := false, padPressedR := false);
      assert HandleStep(st, w, initChild) == CycleRequest(st, w1, AttachedArrow(w).value, initChild);
    }
  }

  /**
    An armed call only reconciles: it consumes no R press, changes no
    variant, inventory or button, plays no cue, and calls the engine at most
    once, to delete the arrow's special child.
  */
  lemma ArmedCallMakesNoCycleAttempt(st: CycleView, w: WorldState, initChild: Option<ActorId>)
    requires WF(w) && ChildOk(w, initChild) && st.frameDelay >= 1
    ensures var r := HandleStep(st, w, initChild).1;
            && r.padPressedR == w.padPressedR && r.rawPadR == w.rawPadR
            && r.items == w.items && r.buttonItems == w.buttonItems
            && r.itemActionParam == w.itemActionParam && r.heldItemActionParam == w.heldItemActionParam
            && r.actors.Keys == w.actors.Keys
            && (forall id :: id in w.actors ==> r.actors[id].variable == w.actors[id].variable)
            && (r.calls == w.calls || exists c :: r.calls == w.calls + [DeleteActor(c)])
  {
    var r := HandleStep(st, w, initChild).1;
    if st.arrow.Some? && st.arrow.value in w.actorLists[ACTORTYPE_ITEMACTION] {
      var a := st.arrow.value;
      if InfoOf(w.actors[a].variable).Some? {
        var d := DropSpecialEffect(w, a);
        assert r == ReconcileEffect(d, st.magicCost, InfoOf(w.actors[a].variable).value);
        if w.actors[a].child.Some? {
          assert r.calls == w.calls + [DeleteActor(w.actors[a].child.value)];
        }
      }
    }
  }

  /**
    Reconciliation when the armed arrow still exists and names a variant:
    magic moves by exactly `captured - cost(current variant)` (as two int8_t
    stores, so exactly when the result fits in an int8_t), the consume state
    becomes 3 for an elemental arrow and 0 for the plain bow, and the special
    child is unlinked.
  */
  lemma ReconcileWhenArrowExists(st: CycleView, w: WorldState, initChild: Option<ActorId>)
    requires WF(w) && ChildOk(w, initChild) && st.frameDelay >= 1
    requires st.arrow.Some? && st.arrow.value in w.actorLists[ACTORTYPE_ITEMACTION]
    requires IsVariant(w.actors[st.arrow.value].variable)
    ensures var cur := InfoOf(w.actors[st.arrow.value].variable).value;
            var r := HandleStep(st, w, initChild).1;
            && r.magic == WrapI8(w.magic + st.magicCost - MagicCost(cur))
            && (-0x80 <= w.magic + st.magicCost - MagicCost(cur) < 0x80 ==>
                  r.magic - w.magic == st.magicCost - MagicCost(cur))
            && r.magicConsumeState == (if cur.item != ITEM_BOW then MAGIC_CONSUME_ARROW else MAGIC_CONSUME_NONE)
            && r.magicConsumeState == (if MagicCost(cur) > 0 then MAGIC_CONSUME_ARROW else MAGIC_CONSUME_NONE)
            && r.actors[st.arrow.value].child.None?
  {
    var a := st.arrow.value;
    var cur := InfoOf(w.actors[a].variable).value;
    WrapI8Compose(w.magic, st.magicCost, MagicCost(cur));
    MagicCostOfVariants(w.actors[a].variable);
  }

  /**
    Reconciliation when the armed arrow is gone from the item-action list (or
    no longer names a variant): the world is left exactly as it was, magic and
    consume state included, and the state is cleared.
  */
  lemma ReconcileWhenArrowGone(st: CycleView, w: WorldState, initChild: Option<ActorId>)
    requires WF(w) && ChildOk(w, initChild) && st.frameDelay >= 1
    requires !(st.arrow.Some? && st.arrow.value in w.actorLists[ACTORTYPE_ITEMACTION])
             || !IsVariant(w.actors[st.arrow.value].variable)
    ensures HandleStep(st, w, initChild) == (Idle, w)
  {
  }

  /** When the gate of lines 147-160 fails, an idle call changes nothing at all. */
  lemma GateClosedIsNoOp(st: CycleView, w: WorldState, initChild: Option<ActorId>)
    requires WF(w) && ChildOk(w, initChild) && st.frameDelay == 0 && !CycleRequested(w)
    ensures HandleStep(st, w, initChild) == (st, w)
  {
  }

  /** The selection that a requested cycle makes, and whether it swaps (neither rejection path applies). */
  predicate SwapTaken(w: WorldState)
    requires WF(w) && CycleRequested(w)
  {
    var v := w.actors[AttachedArrow(w).value].variable;
    var cur := InfoOf(v).value;
    var next := SelectNext(v, w.items, w.magic);
    && next.Some? && next.value.variable != cur.variable
    && !(cur.item == ITEM_BOW && w.magic < MagicCost(next.value))
  }

  /**
    A swap consumes the R press, gives the arrow the candidate's variable,
    shows the candidate on the button, leaves magic and inventory alone, and
    arms the state with the arrow and the pre-swap variant's cost. None of
    this depends on whether the arrow overlay's constructor could run.
  */
  lemma SwapArms(st: CycleView, w: WorldState, initChild: Option<ActorId>)
    requires WF(w) && ChildOk(w, initChild) && st.frameDelay == 0
    requires CycleRequested(w) && SwapTaken(w)
    ensures var id := AttachedArrow(w).value;
            var v := w.actors[id].variable;
            var next := SelectNext(v, w.items, w.magic).value;
            var r := HandleStep(st, w, initChild);
            && r.0 == CycleView(1, MagicCost(InfoOf(v).value), Some(id))
            && !r.1.padPressedR && !r.1.rawPadR
            && r.1.actors[id].variable == next.variable != v
            && r.1.magic == w.magic && r.1.magicConsumeState == w.magicConsumeState
            && r.1.items == w.items
            && r.1.buttonItems == w.buttonItems[w.itemButton := next.icon]
            && r.1.itemActionParam == next.action && r.1.heldItemActionParam == next.action
  {
    var id := AttachedArrow(w).value;
    var v := w.actors[id].variable;
    var w1 := w.(rawPadR := false, padPressedR := false);
    var next := SelectNext(v, w.items, w.magic).value;
    assert HandleStep(st, w, initChild)
        == (CycleView(1, MagicCost(InfoOf(v).value), Some(id)), SwapEffect(w1, id, next, initChild));
  }

  /**
    Both rejection paths leave the state, magic, the consume state, the
    inventory and every actor untouched, and the R press is consumed. The
    button and the action params change only through the display correction
    of lines 169-170: exactly when the walk found no other variant and the
    plain bow is held, owned and not shown, the bow goes back on the button
    before the error cue; otherwise only the cue is logged.
  */
  lemma RejectLeavesStateAndMagic(st: CycleView, w: WorldState, initChild: Option<ActorId>)
    requires WF(w) && ChildOk(w, initChild) && st.frameDelay == 0
    requires CycleRequested(w) && !SwapTaken(w)
    ensures var r := HandleStep(st, w, initChild);
            && r.0 == st
            && r.1.magic == w.magic && r.1.magicConsumeState == w.magicConsumeState
            && r.1.items == w.items && r.1.actors == w.actors
            && !r.1.padPressedR && !r.1.rawPadR
    ensures var cur := InfoOf(w.actors[AttachedArrow(w).value].variable).value;
            var next := SelectNext(cur.variable, w.items, w.magic);
            var fix := (next.None? || next.value.variable == cur.variable) && BowShownWrongly(w, cur);
            var r := HandleStep(st, w, initChild).1;
            && (fix ==>
                  && r.buttonItems == w.buttonItems[w.itemButton := ITEM_BOW]
                  && r.itemActionParam == 8 && r.heldItemActionParam == 8
                  && r.calls == w.calls + [UpdateItemButton(w.itemButton), PlaySfx(SFX_REJECT)])
            && (!fix ==>
                  && r.buttonItems == w.buttonItems
                  && r.itemActionParam == w.itemActionParam && r.heldItemActionParam == w.heldItemActionParam
                  && r.calls == w.calls + [PlaySfx(SFX_REJECT)])
  {
    var id := AttachedArrow(w).value;
    var w1 := w.(rawPadR := false, padPressedR := false);
    assert HandleStep(st, w, initChild) == CycleRequest(st, w1, id, initChild);
  }

  /**
    The whole protocol across two frames: the first call swaps from variant
    `v` to `next` and leaves the state armed as stated; the second call, one
    frame later on world `w2`, starts from that armed state. Whatever the
    engine did to magic in between, as long as the arrow is still listed and
    still carries the variable the swap gave it, the second call changes
    magic by exactly `cost(v) - cost(next)` and returns to idle.
  */
  lemma SwapThenReconcile(st: CycleView, w: WorldState, initChild: Option<ActorId>,
                          w2: WorldState, initChild2: Option<ActorId>)
    requires WF(w) && ChildOk(w, initChild) && st.frameDelay == 0
    requires CycleRequested(w) && SwapTaken(w)
    requires WF(w2) && ChildOk(w2, initChild2)
    requires var id := AttachedArrow(w).value;
             var next := SelectNext(w.actors[id].variable, w.items, w.magic).value;
             id in w2.actorLists[ACTORTYPE_ITEMACTION] && w2.actors[id].variable == next.variable
    ensures var id := AttachedArrow(w).value;
            var v := w.actors[id].variable;
            HandleStep(st, w, initChild).0 == CycleView(1, MagicCost(InfoOf(v).value), Some(id))
    ensures var id := AttachedArrow(w).value;
            var v := w.actors[id].variable;
            var next := SelectNext(v, w.items, w.magic).value;
            var r2 := HandleStep(CycleView(1, MagicCost(InfoOf(v).value), Some(id)), w2, initChild2);
            && r2.0 == Idle
            && r2.1.magic == WrapI8(w2.magic + MagicCost(InfoOf(v).value) - MagicCost(next))
  {
    var id := AttachedArrow(w).value;
    var v := w.actors[id].variable;
    var next := SelectNext(v, w.items, w.magic).value;
    SwapArms(st, w, initChild);
    ReconcileArmed(MagicCost(InfoOf(v).value), id, next, w2, initChild2);
  }

  /** The second half of `SwapThenReconcile`: the armed call on a world where the arrow carries `next`. */
  lemma ReconcileArmed(cost: I8, id: ActorId, next: ArrowInfo, w: WorldState, initChild: Option<ActorId>)
    requires WF(w) && ChildOk(w, initChild)
    requires id in w.actorLists[ACTORTYPE_ITEMACTION] && InfoOf(w.actors[id].variable) == Some(next)
    ensures var r := HandleStep(CycleView(1, cost, Some(id)), w, initChild);
            r.0 == Idle && r.1.magic == WrapI8(w.magic + cost - MagicCost(next))
  {
    ReconcileWhenArrowExists(CycleView(1, cost, Some(id)), w, initChild);
  }

  // ---------------------------------------------------------------------
  // Worked scenarios on a small concrete world: the player (actor 1) holds
  // an arrow actor (actor 2) listed in the item-action category.

  const PLAYER: ActorId := 1
  const ARROW: ActorId := 2
  const ITEM_NONE: U8 := 0xFF

  /** An inventory holding exactly the variants in `owned`. */
  function Inventory(owned: set<int>): (items: seq<U8>)
    ensures |items| == ITEM_SLOTS
  {
    seq(ITEM_SLOTS, i requires 0 <= i < ITEM_SLOTS =>
      if i == SLOT_BOW as int && 2 in owned then ITEM_BOW
      else if i == SLOT_FIRE_ARROW as int && 3 in owned then ITEM_FIRE_ARROW
      else if i == SLOT_ICE_ARROW as int && 4 in owned then ITEM_ICE_ARROW
      else if i == SLOT_LIGHT_ARROW as int && 5 in owned then ITEM_LIGHT_ARROW
      else ITEM_NONE)
  }

  function Lists(arrowListed: bool): (lists: seq<seq<ActorId>>)
    ensures |lists| == ACTOR_CATEGORIES
  {
    seq(ACTOR_CATEGORIES, c requires 0 <= c < ACTOR_CATEGORIES =>
      if c == ACTORTYPE_ITEMACTION && arrowListed then [ARROW] else [])
  }

  /** The player holds an arrow with `variable`, C-left (button 1) shows `shown`, R has just been pressed. */
  function Scene(owned: set<int>, magic: I8, variable: U16, shown: U8, arrowListed: bool): (w: WorldState)
    ensures WF(w)
  {
    WorldState(
      map[PLAYER := Actor(0, 0, None, Some(ARROW), true),
          ARROW := Actor(ACTOR_EN_ARROW, variable, Some(PLAYER), None, true)],
      Lists(arrowListed), PLAYER, 1, 0, 0,
      Inventory(owned), [ITEM_NONE, shown, ITEM_NONE, ITEM_NONE],
      magic, 0, true, true, true,
      Reloc.ActorOverlay(None, 0, 0, 0), {}, [])
  }

  /** In a scene, R requests a cycle whenever the arrow names a variant and the button shows a bow item. */
  lemma SceneRequested(owned: set<int>, magic: I8, variable: U16, k: nat)
    requires IsVariant(variable) && k < |Arrows|
    ensures var w := Scene(owned, magic, variable, Arrows[k].icon, true);
            AttachedArrow(w) == Some(ARROW) && CycleRequested(w)
  {
    assert Arrows[k] in Arrows;
  }

  /** Bow and Fire Arrows owned, magic 10: from Normal the first successor, Fire, qualifies (10 >= 0 - 4). */
  lemma SelectNormalToFire()
    ensures SelectNext(2, Inventory({2, 3}), 10) == InfoOf(3)
  {
    assert Qualifies(2, 3, Inventory({2, 3}), 10);
  }

  /**
    Bow and Fire Arrows owned, Fire held, magic below 4: Ice and Light are
    not owned and the plain bow needs `magic >= 4 - 0`, so the walk comes
    back to Fire itself.
  */
  lemma SelectFireStays(magic: I8)
    requires 0 <= magic < 4
    ensures SelectNext(3, Inventory({2, 3}), magic) == InfoOf(3)
  {
    var items := Inventory({2, 3});
    NextVariableCycle(3);
    assert Walk(3, 4) == [4, 5, 2, 3];
    assert !Qualifies(3, 4, items, magic) && !Qualifies(3, 5, items, magic) && !Qualifies(3, 2, items, magic);
    SelectNextMayReturnStart(3, items, magic);
  }

  /** Only the bow owned: from Normal no other variant is owned, so the walk comes back to Normal. */
  lemma SelectBowStays(magic: I8)
    requires magic >= 0
    ensures SelectNext(2, Inventory({2}), magic) == InfoOf(2)
  {
    var items := Inventory({2});
    NextVariableCycle(2);
    assert Walk(2, 4) == [3, 4, 5, 2];
    assert !Qualifies(2, 3, items, magic) && !Qualifies(2, 4, items, magic) && !Qualifies(2, 5, items, magic);
    SelectNextMayReturnStart(2, items, magic);
  }

  /** Bow, Fire and Light Arrows owned, Fire held, magic 0: Ice is skipped and Light qualifies (0 >= 4 - 8). */
  lemma SelectFireToLight()
    ensures SelectNext(3, Inventory({2, 3, 5}), 0) == InfoOf(5)
  {
    var items := Inventory({2, 3, 5});
    assert !Qualifies(3, 4, items, 0) && Qualifies(3, 5, items, 0);
  }

  /**
    Normal arrow held, Fire Arrows owned, magic 10: R selects Fire and arms
    with captured cost 0; the next frame's reconciliation leaves magic at 6
    with the elemental consume state.
  */
  lemma ScenarioNormalToFire()
    ensures var w := Scene({2, 3}, 10, 2, ITEM_BOW, true);
            var r1 := HandleStep(Idle, w, None);
            && r1.0 == CycleView(1, 0, Some(ARROW))
            && r1.1.actors[ARROW].variable == 3
            && r1.1.buttonItems[1] == ITEM_BOW_FIRE_ARROW
            && var r2 := HandleStep(CycleView(1, 0, Some(ARROW)), r1.1, None);
            && r2.0 == Idle && r2.1.magic == 6 && r2.1.magicConsumeState == MAGIC_CONSUME_ARROW
  {
    var w := Scene({2, 3}, 10, 2, ITEM_BOW, true);
    SceneRequested({2, 3}, 10, 2, 0);
    SelectNormalToFire();
    assert SwapTaken(w);
    SwapArms(Idle, w, None);
    var r1 := HandleStep(Idle, w, None);
    ReconcileWhenArrowExists(CycleView(1, 0, Some(ARROW)), r1.1, None);
  }

  /**
    Fire arrow held, the bow and Fire Arrows owned, magic below 4: the delta
    check gates even the free plain bow (it needs `magic >= 4 - 0`), so the
    press is rejected: the R press is consumed, the error cue is logged, and
    nothing else changes.
  */
  lemma ScenarioFireRejected(magic: I8)
    requires 0 <= magic < 4
    ensures var w := Scene({2, 3}, magic, 3, ITEM_BOW_FIRE_ARROW, true);
            HandleStep(Idle, w, None) == (Idle, RejectCue(w.(rawPadR := false, padPressedR := false)))
    ensures var r := HandleStep(Idle, Scene({2, 3}, magic, 3, ITEM_BOW_FIRE_ARROW, true), None);
            r.1.magic == magic && r.1.actors[ARROW].variable == 3 && r.1.calls == [PlaySfx(SFX_REJECT)]
  {
    var w := Scene({2, 3}, magic, 3, ITEM_BOW_FIRE_ARROW, true);
    SceneRequested({2, 3}, magic, 3, 1);
    SelectFireStays(magic);
    assert !SwapTaken(w);
    RejectLeavesStateAndMagic(Idle, w, None);
    var w1 := w.(rawPadR := false, padPressedR := false);
    assert HandleStep(Idle, w, None) == (Idle, RejectCue(w1));
  }

  /** The armed arrow has left the item-action list: the state clears, magic and consume state stay. */
  lemma ScenarioArrowGone()
    ensures var w := Scene({2, 3}, 6, 3, ITEM_BOW_FIRE_ARROW, false);
            HandleStep(CycleView(1, 0, Some(ARROW)), w, None) == (Idle, w)
  {
    var w := Scene({2, 3}, 6, 3, ITEM_BOW_FIRE_ARROW, false);
    assert w.actorLists[ACTORTYPE_ITEMACTION] == [];
  }

  /**
    Normal arrow held, the button shows Fire though only the bow is owned:
    there is no other candidate, so the button is put back to the bow (icon
    and both action params) before the error cue, and nothing else changes.
  */
  lemma ScenarioBowButtonCorrected(magic: I8)
    requires magic >= 0
    ensures var w := Scene({2}, magic, 2, ITEM_BOW_FIRE_ARROW, true);
            var r := HandleStep(Idle, w, None);
            && r.0 == Idle && r.1.magic == magic && r.1.actors[ARROW].variable == 2
            && r.1.buttonItems[1] == ITEM_BOW
            && r.1.itemActionParam == 8 && r.1.heldItemActionParam == 8
            && r.1.calls == [UpdateItemButton(1), PlaySfx(SFX_REJECT)]
  {
    var w := Scene({2}, magic, 2, ITEM_BOW_FIRE_ARROW, true);
    SceneRequested({2}, magic, 2, 1);
    SelectBowStays(magic);
    var w1 := w.(rawPadR := false, padPressedR := false);
    assert HandleStep(Idle, w, None) == (Idle, RejectCue(ButtonEffect(w1, Arrows[0])));
  }

  /**
    Once an elemental arrow is held, the delta check admits a pricier variant
    at any magic from -4 up: holding Fire with magic 0 and owning Light
    Arrows, the press swaps to Light, and the next frame's reconciliation
    takes magic to -4.
  */
  lemma PricierVariantUngated()
    ensures var w := Scene({2, 3, 5}, 0, 3, ITEM_BOW_FIRE_ARROW, true);
            var r1 := HandleStep(Idle, w, None);
            && r1.0 == CycleView(1, 4, Some(ARROW))
            && r1.1.actors[ARROW].variable == 5
            && HandleStep(CycleView(1, 4, Some(ARROW)), r1.1, None).1.magic == -4
  {
    var w := Scene({2, 3, 5}, 0, 3, ITEM_BOW_FIRE_ARROW, true);
    SceneRequested({2, 3, 5}, 0, 3, 1);
    SelectFireToLight();
    assert SwapTaken(w);
    SwapArms(Idle, w, None);
    var r1 := HandleStep(Idle, w, None);
    ReconcileWhenArrowExists(CycleView(1, 4, Some(ARROW)), r1.1, None);
  }

}
