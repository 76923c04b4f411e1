/**
  The part of the game engine's state that the arrow-cycle hook reads and
  writes: the actor table and its per-category lists, the player's C-button
  fields, the save file's inventory and magic, the R-button input flags, the
  arrow overlay's table entry, and a log of the engine routines the hook calls.

  Actor pointers are identities (`ActorId`) into the actor table; NULL is `None`.
*/
module World {
  import opened Wrappers
  import opened Machine
  import opened Reloc
  import opened Catalog

  type ActorId = nat

  const ACTOR_EN_ARROW: U16 := 0x0016
  const ACTORTYPE_ITEMACTION: nat := 7
  const ACTOR_CATEGORIES: nat := 12
  const BUTTONS: nat := 4
  /** The error cue played on both rejection paths. */
  const SFX_REJECT: U16 := 0x4806

  /** The fields of `z64_actor_t` the hook touches; `hasDrawProc` stands for `draw_proc != NULL`. */
  datatype Actor = Actor(
    actorId: U16,
    variable: U16,
    parent: Option<ActorId>,
    child: Option<ActorId>,
    hasDrawProc: bool
  )

  /** Calls into engine code that is not part of this model, in the order they are made. */
  datatype EngineCall =
    | UpdateItemButton(button: U8)   // z64_UpdateItemButton
    | DeleteActor(actor: ActorId)    // z64_DeleteActor
    | ArrowDestroy(actor: ActorId)   // the arrow overlay's destroy entry
    | ArrowInit(actor: ActorId)      // the arrow overlay's init entry
    | PlaySfx(sfx: U16)              // z64_playsfx

  /** A snapshot of every engine field the hook can observe or change. */
  datatype WorldState = WorldState(
    actors: map<ActorId, Actor>,
    actorLists: seq<seq<ActorId>>,  // per category, the actors in list order
    player: ActorId,                 // player->common
    itemButton: U8,
    itemActionParam: U8,
    heldItemActionParam: U8,
    items: seq<U8>,                  // z64_file.items
    buttonItems: seq<U8>,            // z64_file.button_items
    magic: I8,
    magicConsumeState: U8,
    hudAllVisible: bool,             // hud_visibility_mode == HUD_VISIBILITY_ALL
    padPressedR: bool,               // input[0].pad_pressed.r
    rawPadR: bool,                   // input[0].raw.pad.r
    arrowOverlay: ActorOverlay,      // z64_actor_ovl_table[ACTOR_EN_ARROW]
    initProcs: set<Ptr>,             // addresses of actor-init records whose init entry is not NULL
    calls: seq<EngineCall>
  )

  /**
    Engine-side well-formedness: array sizes, and neither a member of the
    item-action list (the only list the hook dereferences through) nor a
    child link leaves the actor table.
  */
  predicate WF(w: WorldState) {
    && |w.items| == ITEM_SLOTS
    && |w.buttonItems| == BUTTONS
    && w.itemButton < BUTTONS
    && |w.actorLists| == ACTOR_CATEGORIES
    && w.player in w.actors
    && (forall id :: id in w.actorLists[ACTORTYPE_ITEMACTION] ==> id in w.actors)
    && (forall id {:trigger w.actors[id].child} :: id in w.actors && w.actors[id].child.Some? ==> w.actors[id].child.value in w.actors)
  }

  /** The engine state as an object whose fields the hook updates in place. */
  class World {
    var actors: map<ActorId, Actor>
    var actorLists: seq<seq<ActorId>>
    var player: ActorId
    var itemButton: U8
    var itemActionParam: U8
    var heldItemActionParam: U8
    var items: seq<U8>
    var buttonItems: seq<U8>
    var magic: I8
    var magicConsumeState: U8
    var hudAllVisible: bool
    var padPressedR: bool
    var rawPadR: bool
    var arrowOverlay: ActorOverlay
    var initProcs: set<Ptr>
    var calls: seq<EngineCall>

    function View(): WorldState
      reads this
    {
      WorldState(actors, actorLists, player, itemButton, itemActionParam, heldItemActionParam,
                 items, buttonItems, magic, magicConsumeState, hudAllVisible, padPressedR, rawPadR,
                 arrowOverlay, initProcs, calls)
    }

    predicate Valid()
      reads this
    {
      WF(View())
    }
  }

  /** `actor_helper_does_actor_exist`: walk the category's actor list looking for `target` by identity. */
  method DoesActorExist(target: Option<ActorId>, w: World, category: nat) returns (found: bool)
    requires category < |w.actorLists|
    ensures found <==> target.Some? && target.value in w.actorLists[category]
  {
    var list := w.actorLists[category];
    var i := 0;
    while i < |list|
      invariant 0 <= i <= |list|
      invariant forall j :: 0 <= j < i ==> Some(list[j]) != target
    {
      if Some(list[i]) == target {
        return true;
      }
      i := i + 1;
    }
    return false;
  }

  /** Specification of `arrow_cycle_find_arrow`: the player's attached child, if it is an arrow actor parented to the player. */
  function AttachedArrow(w: WorldState): (r: Option<ActorId>)
    requires WF(w)
    ensures r.Some? <==> && w.actors[w.player].child.Some?
                         && w.actors[w.actors[w.player].child.value].actorId == ACTOR_EN_ARROW
                         && w.actors[w.actors[w.player].child.value].parent == Some(w.player)
    ensures r.Some? ==> r == w.actors[w.player].child && r.value in w.actors
  {
    var attached := w.actors[w.player].child;
    if attached.Some? && w.actors[attached.value].actorId == ACTOR_EN_ARROW
       && w.actors[attached.value].parent == Some(w.player)
    then attached
    else None
  }

  /** `arrow_cycle_find_arrow`. */
  method FindArrow(w: World) returns (r: Option<ActorId>)
    requires w.Valid()
    ensures r == AttachedArrow(w.View())
  {
    var attached := w.actors[w.player].child;
    if attached.Some? && w.actors[attached.value].actorId == ACTOR_EN_ARROW
       && w.actors[attached.value].parent == Some(w.player) {
      return attached;
    }
    return None;
  }

}
