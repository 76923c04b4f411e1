# Arrow cycling, modelled in Dafny

This project models the randomizer's in-game arrow cycling hook, implemented in
`ASM/c/arrow_cycle.c`. It runs once per frame on the player. When the HUD is
fully shown, the player holds a bow-with-arrow item on a C button, an arrow
actor is attached to the player, and R is pressed, the hook does this:

- it walks the four arrow variants (Normal → Fire → Ice → Light → Normal);
- it takes the first one that is owned and affordable;
- it rewrites the attached arrow actor's `variable` and re-runs the arrow
  overlay's destroy and init entries on it;
- it shows the new variant on the button.

One frame later it reconciles magic. It refunds the magic the old variant had
pre-paid and charges the new variant's cost. It does this only if the arrow
still exists.

The model has four parts.

- **Overlay relocation** (`Reloc`). `resolve` and the two `reloc_resolve_*`
  wrappers map a virtual address to an address in the overlay's loaded RAM
  copy. The result is `None` when the overlay is unloaded or the address is
  outside the window.
- **Arrow catalog** (`Catalog`). This covers the `g_arrows` table, `get_info`,
  `get_next_arrow_variable`, `get_magic_cost_by_info`, `is_arrow_item` and the
  selection walk `get_next_info`.
  - Pure routines are functions.
  - The two C loops, `get_info` and `get_next_info`, are methods with loop
    invariants. Each is proved equal to a reference function.
- **World and existence check** (`World`). The engine state the hook reads and
  writes is a `World` class:
  - the save file's items, button items, magic and consume state;
  - the player's action params;
  - the actor table with `variable`, `child`, `parent` and draw routine;
  - the per-category actor lists;
  - the R input flags;
  - the arrow overlay record;
  - a log of engine calls.

  Pointers are keys of the actor table, and NULL is `None`.
  `actor_helper_does_actor_exist` and `arrow_cycle_find_arrow` are
  module-level methods that take the `World`. The first is specified by list
  membership, the second by the function `AttachedArrow`.
- **Cycle state machine** (`ArrowCycle`). `g_arrow_cycle_state` is the class
  `ArrowCycleState`. `arrow_cycle_handle`, `handle_frame_delay` and their
  pieces are methods that change the state and the world in place.
  - Each method is proved to produce exactly what a specification function
    computes on value snapshots (`HandleStep`, `FrameDelayEffect`,
    `CycleRequest`, `SwapEffect`, …).
  - `ArrowCycleProperties` proves the hook's promises about those functions,
    plus worked scenarios on a small concrete world.

`z64_file.magic` is an `int8_t`. Each of the two stores of lines 126-127 wraps
separately, and the model writes this wrap-around out (`Machine.WrapI8`).
`Machine.WrapI8Compose` shows that the two wrapped stores equal one wrapped
store of the exact sum.

In two places the code does not do what one would expect, and the model follows the code:

- **The delta check.** One would expect a cheaper variant always to be
  selectable. The code's test at line 64 is `magic >= cost(current) - cost(candidate)`,
  which makes the requirement positive for a CHEAPER candidate. For example,
  going from Fire back to the free plain bow needs magic ≥ 4.
- **Pricier variants.** For a pricier candidate the requirement is negative,
  so once an elemental arrow is held a pricier variant is admitted at any
  magic from −4 up (the costs only go up to 8). Going
  from Fire to Light at magic 0 is accepted, and the next frame's
  reconciliation leaves magic at −4.

The plain-bow guard of line 175 applies only when the bow is held.
`ArrowCycleProperties.ScenarioFireRejected` and
`ArrowCycleProperties.PricierVariantUngated` prove both behaviours on
concrete states.

## Model

| member | source | states |
|---|---|---|
| Reloc.Resolve | ASM/c/arrow_cycle.c:201-208 | `None` exactly when the overlay is unloaded, `vram < virtStart` or `vram >= virtEnd`; otherwise exactly `ram + (vram - virtStart)`, which lies inside the loaded copy |
| Reloc.ResolveRoundTrip | ASM/c/arrow_cycle.c:201-208 | un-resolving a resolved address gives the virtual address back |
| Reloc.ResolveInjective | ASM/c/arrow_cycle.c:201-208 | two addresses of the window never resolve to the same RAM address |
| Reloc.ResolveActorOverlay | ASM/c/arrow_cycle.c:210-213 | resolves against the overlay's loaded address and vram window, `None` iff unloaded or outside the window |
| Reloc.ResolveActorInit | ASM/c/arrow_cycle.c:215-217 | resolves the overlay's `init_info` virtual address the same way |
| Reloc.UnloadedResolvesNothing | ASM/c/arrow_cycle.c:201-217 | an overlay that is not loaded resolves no address |
| Catalog.InfoOf | ASM/c/arrow_cycle.c:23-36 | a table entry exactly for the variables 2..5; that entry is in `g_arrows`, carries the asked variable and names a valid inventory slot |
| Catalog.InfoOfUnique | ASM/c/arrow_cycle.c:23-28 | any table entry carrying variable `v` is the entry returned for `v` |
| Catalog.GetInfo | ASM/c/arrow_cycle.c:30-36 | the linear search returns the same entry as the reference table lookup, `None` when no entry matches |
| Catalog.NextVariable | ASM/c/arrow_cycle.c:38-46 | stays inside the variants and outside them; the identity off the variants; no fixed point on the variants |
| Catalog.NextVariableCycle | ASM/c/arrow_cycle.c:38-46 | from a variant, the four-step walk visits every variant, is back at the start on the fourth step and not before, and its first step is the next variant in the order 2 → 3 → 4 → 5 → 2 |
| Catalog.WalkFixed | ASM/c/arrow_cycle.c:44 | from a non-variant, every step of the walk stays put |
| Catalog.MagicCost | ASM/c/arrow_cycle.c:48-55 | every cost lies in 0..8 |
| Catalog.MagicCostOfVariants | ASM/c/arrow_cycle.c:48-55 | the variants cost 0/4/4/8, and a variant is free exactly when it is the plain bow |
| Catalog.IsArrowItem | ASM/c/arrow_cycle.c:81-91 | true exactly for the button icons of the four `g_arrows` entries |
| Catalog.SelectFrom | ASM/c/arrow_cycle.c:57-68 | any entry returned is in the table, owned in its slot, and passes the delta check against the start variant |
| Catalog.SelectNext | ASM/c/arrow_cycle.c:57-68 | any entry returned is a variant, owned, and passes `magic >= cost(v) - cost(candidate)` |
| Catalog.SelectFromFirstMatch | ASM/c/arrow_cycle.c:61-67 | the walk returns `None` iff no candidate within the steps qualifies, and otherwise returns the FIRST qualifying candidate in successor order |
| Catalog.SelectNextFirstMatch | ASM/c/arrow_cycle.c:57-68 | `get_next_info(v)` returns the first qualifying variant of the four-step walk and `None` iff none qualifies; the fourth step is `v` itself |
| Catalog.SelectNextMayReturnStart | ASM/c/arrow_cycle.c:57-68 | at magic ≥ 0, when no other variant qualifies but `v`'s own item is owned, the walk returns `v`'s own entry (the cue for rejection at line 168) |
| Catalog.GetNextInfo | ASM/c/arrow_cycle.c:57-68 | the loop that updates `current` four times returns exactly the reference selection |
| World.DoesActorExist | ASM/c/arrow_cycle.c:100-108 | true iff the target is not NULL and occurs in the category's actor list |
| World.AttachedArrow | ASM/c/arrow_cycle.c:131-136 | the player's child exactly when it is an arrow actor whose parent is the player, and then an actor of the table |
| World.FindArrow | ASM/c/arrow_cycle.c:131-136 | the method returns exactly `AttachedArrow` of the world |
| ArrowCycle.ArrowCycleState.constructor | ASM/c/arrow_cycle.c:9-13 | the initial state is idle: no delay, no captured cost, no arrow |
| ArrowCycle.ArrowCycleState.Handle | ASM/c/arrow_cycle.c:138-191 | the new hook state and world are exactly one `HandleStep` of the old ones, and the world stays well formed |
| ArrowCycle.ArrowCycleState.HandleFrameDelay | ASM/c/arrow_cycle.c:111-129 | the world becomes exactly `FrameDelayEffect` of the old world with the captured cost and arrow |
| ArrowCycle.ArrowCycleState.RequestCycle | ASM/c/arrow_cycle.c:164-190 | state and world become `CycleRequest` of the old ones; `curInfo` at line 169 is never NULL because the gate admits only variants |
| ArrowCycle.ArrowCycleState.Arm | ASM/c/arrow_cycle.c:188-190 | the state records the arrow, the incremented delay and the given cost |
| ArrowCycle.UpdateCButton | ASM/c/arrow_cycle.c:93-98 | the button shows the entry's icon, both action params take its action, and one button refresh is logged |
| ArrowCycle.ButtonEffect | ASM/c/arrow_cycle.c:93-98 | only the button item, both action params and the call log change |
| ArrowCycle.CallArrowActorCtor | ASM/c/arrow_cycle.c:70-79 | runs destroy then init and reports 1 exactly when the init record resolves and its init entry is not NULL; otherwise nothing changes |
| ArrowCycle.CtorEffect | ASM/c/arrow_cycle.c:70-79 | the result is true iff the init record resolves to a present init entry; when true, destroy then init are logged in that order and the arrow's child becomes `initChild`; when false the world is unchanged; only the call log and actors ever change |
| ArrowCycle.CorrectBowButton | ASM/c/arrow_cycle.c:169-170 | the world becomes `BowCorrection` of the old one |
| ArrowCycle.BowCorrection | ASM/c/arrow_cycle.c:169-170 | when the plain bow is held and owned but the button shows another bow item, the button shows the bow, both action params become 8 and one button refresh is logged; otherwise the world is unchanged; nothing besides the button item, the action params and the call log ever changes |
| ArrowCycle.RejectCue | ASM/c/arrow_cycle.c:171-176 | exactly one error-cue call is appended to the log and nothing else changes |
| ArrowCycle.PlayRejectCue | ASM/c/arrow_cycle.c:171-176 | the world becomes `RejectCue` of the old one |
| ArrowCycle.SwapArrow | ASM/c/arrow_cycle.c:180-186 | the world becomes `SwapEffect` of the old one, whatever the constructor returned |
| ArrowCycle.SwapEffect | ASM/c/arrow_cycle.c:180-186 | the arrow carries the candidate's variable; the log gains destroy and init (only when the constructor runs) and then the button refresh; the arrow's child is `initChild` when the constructor runs and otherwise unchanged, and that child has no draw routine; the button and action params show the candidate; nothing else changes: no other field of the world, no actor besides the arrow and its child, and the table keeps its keys |
| ArrowCycle.HideSpecial | ASM/c/arrow_cycle.c:182-184 | the world becomes `HideSpecialEffect` of the old one |
| ArrowCycle.HideSpecialEffect | ASM/c/arrow_cycle.c:182-184 | the special child, when there is one, no longer has a draw routine; only actors change, the table keeps its keys, and no actor changes anything but its draw routine |
| ArrowCycle.DropSpecial | ASM/c/arrow_cycle.c:117-121 | the world becomes `DropSpecialEffect` of the old one |
| ArrowCycle.DropSpecialEffect | ASM/c/arrow_cycle.c:117-121 | afterwards the arrow has no child; with no child the world is unchanged, otherwise one deletion of that child is logged; nothing changes besides the call log and the arrow's `child` |
| ArrowCycle.Reconcile | ASM/c/arrow_cycle.c:123-127 | the world becomes `ReconcileEffect` of the old one: consume state by variant and two wrapped magic stores |
| ArrowCycle.ReconcileEffect | ASM/c/arrow_cycle.c:123-127 | only magic and the consume state change, and the consume state is 0 exactly when the variant now held is the plain bow |
| ArrowCycle.FrameDelayEffect | ASM/c/arrow_cycle.c:111-129 | when the captured arrow is not in the item-action list the world is unchanged; nothing besides the actors, the call log, magic and the consume state ever changes |
| ArrowCycle.CycleRequested | ASM/c/arrow_cycle.c:147-161 | when the gate passes there is an attached arrow and its variable has a table entry |
| ArrowCycle.CycleRequest | ASM/c/arrow_cycle.c:164-190 | neither inventory nor magic changes; only actors, the button item, the action params and the call log change, and the table keeps its keys; the state either stays or is armed with delay 1, the held variant's cost and the arrow |
| ArrowCycle.HandleStep | ASM/c/arrow_cycle.c:138-191 | the world stays well formed and the inventory is never changed; magic changes only on an armed call, and an armed call always ends idle |
| ArrowCycleProperties.HandleKeepsConsistent | ASM/c/arrow_cycle.c:138-191 | after every call the delay is 0 or 1 and the arrow is recorded iff the delay is 1; an armed call always ends with all three fields cleared |
| ArrowCycleProperties.HandleFrame | ASM/c/arrow_cycle.c:138-191 | the hook changes only the actors, the button item, the action params, the call log, magic, the consume state and the R flags: the actor lists, HUD mode, player, item button, inventory, arrow overlay and init records are never changed, and no actor appears or disappears |
| ArrowCycleProperties.ArmedCallMakesNoCycleAttempt | ASM/c/arrow_cycle.c:139-145 | an armed call consumes no R press, changes no variant, inventory, button or action param, and logs at most one actor deletion |
| ArrowCycleProperties.ReconcileWhenArrowExists | ASM/c/arrow_cycle.c:111-145 | with the arrow still listed, magic changes by exactly `captured - cost(current variant)` up to int8_t wrap (exactly, when in range), the consume state is 3 for an elemental arrow and 0 for the bow, and the special child is unlinked |
| ArrowCycleProperties.ReconcileWhenArrowGone | ASM/c/arrow_cycle.c:111-145 | with the arrow gone from the item-action list, the world, including magic and consume state, is untouched and the state is cleared |
| ArrowCycleProperties.GateClosedIsNoOp | ASM/c/arrow_cycle.c:147-161 | an idle call whose gate fails changes neither state nor world |
| ArrowCycleProperties.SwapArms | ASM/c/arrow_cycle.c:160-190 | a swap clears the R flags, gives the arrow the candidate's variable (different from the old one), shows the candidate, leaves magic and inventory alone and arms the state with the arrow and the pre-swap cost |
| ArrowCycleProperties.RejectLeavesStateAndMagic | ASM/c/arrow_cycle.c:160-178 | on either rejection path the state, magic, consume state, inventory and every actor are unchanged and R is consumed; on the first path, under the condition of line 169, the button shows the bow, both action params are 8 and the log gains a button refresh then the cue; otherwise button and params are unchanged and the log gains only the cue |
| ArrowCycleProperties.SwapThenReconcile | ASM/c/arrow_cycle.c:111-191 | a swap from `v` to `next` followed one frame later by reconciliation changes magic by exactly `cost(v) - cost(next)` (up to int8_t wrap) and ends idle |
| ArrowCycleProperties.SelectFireStays | ASM/c/arrow_cycle.c:57-68 | holding Fire with only the bow besides and magic 0..3, the walk returns Fire itself: the cheaper plain bow is gated |
| ArrowCycleProperties.SelectFireToLight | ASM/c/arrow_cycle.c:57-68 | holding Fire with Light owned and magic 0, the walk skips the unowned Ice and returns Light |
| ArrowCycleProperties.ScenarioNormalToFire | ASM/c/arrow_cycle.c:138-191 | Normal with Fire owned at magic 10: R swaps to Fire and arms with cost 0; next frame magic is 6 with consume state 3 |
| ArrowCycleProperties.ScenarioFireRejected | ASM/c/arrow_cycle.c:164-173 | Fire held, only the bow besides, magic 0..3: the result is exactly the world with R cleared and the cue logged, and the state stays idle |
| ArrowCycleProperties.ScenarioArrowGone | ASM/c/arrow_cycle.c:111-145 | the armed arrow has left the list: the state clears and the world is unchanged |
| ArrowCycleProperties.ScenarioBowButtonCorrected | ASM/c/arrow_cycle.c:168-172 | Normal held, Fire shown but only the bow owned, magic ≥ 0: the button is put back to the bow before the cue |
| ArrowCycleProperties.PricierVariantUngated | ASM/c/arrow_cycle.c:57-191 | Fire held with Light owned at magic 0: the delta check of line 64 admits Light, the press swaps to Light and reconciliation takes magic to −4 |
| Machine.WrapI8 | ASM/c/arrow_cycle.c:126-127 | an int8_t store: the stored value agrees with the exact one modulo 256 and equals it when it fits in -128..127 |
| Machine.WrapI8Compose | ASM/c/arrow_cycle.c:126-127 | two successive int8_t stores equal one int8_t store of the exact sum |

## Left out

- `z64_playsfx`'s position and float arguments (fixed RAM addresses) are not modelled; the cue is a `PlaySfx(0x4806)` entry of the call log.
- `z64_UpdateItemButton`, `z64_DeleteActor` and the overlay's `destroy`/`init` entries are foreign engine code and appear only as call-log entries. The only modelled effect of `init` is the arrow's new `child`, a parameter of the hook (`initChild`). The model does not remove a deleted actor from the table or the lists.
- `destroy` is called without its own NULL check (line 74). The model logs it whenever `init` is present, as the code does; what a NULL `destroy` would do is not modelled.
- `actor_helper_does_actor_exist` walks a linked list through `next`; the model walks the category's list as a sequence of actor keys, so a cyclic `next` chain is not modelled.
- Addresses are natural numbers and a resolved address is positive (non-NULL); the 32-bit wrap of `ram + offset` in `resolve` is not modelled.
- `hud_visibility_mode` is reduced to the boolean "equals HUD_VISIBILITY_ALL"; the raw and edge-pressed R bits are two booleans.
- The z64 header constants (item ids, inventory slots, actor id, actor category, array sizes) are not part of this model; the model uses the game's values: bow 0x03, fire/ice/light arrows 0x04/0x0C/0x12, bow icons 0x03/0x38/0x39/0x3A, slots 3/4/10/16, `ACTOR_EN_ARROW` 0x16, item-action category 7 of 12, 24 item slots, 4 buttons.
- Well-formedness of the world assumes the engine's invariants the hook relies on: the player, every member of the item-action list and every child link are actors of the table. Other lists are not constrained.
- `get_next_info` is only specified for a variant (the source would read a NULL `get_info` result otherwise); its only caller passes a variant after the gate of line 154.
- The arrow's new `child` from `init` (`initChild`) must already be an actor of the pre-state table (`ChildOk`), although the real `init` spawns a fresh actor; the spawn itself is not modelled.
- `frameDelay` is a `uint16_t`; it is only incremented from 0, so its wrap is not modelled.
