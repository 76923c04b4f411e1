/**
  Address relocation into a loaded actor overlay.

  An overlay is linked for a fixed virtual window `[virtStart, virtEnd)` and is
  copied by the engine to some RAM address (or not loaded at all). A virtual
  address found in a static table is usable only after it has been mapped into
  that copy. RAM addresses are naturals; a NULL pointer is `None`.
*/
module Reloc {
  import opened Wrappers
  import opened Machine

  /** A non-NULL RAM address; NULL is `None`. */
  type Ptr = x: nat | x > 0 witness 1

  /** `struct resolve_info`: where the overlay sits in RAM and the virtual window it was linked for. */
  datatype ResolveInfo = ResolveInfo(ram: Option<Ptr>, virtStart: U32, virtEnd: U32)

  /** The part of `z64_actor_ovl_t` that the resolver consumes. */
  datatype ActorOverlay = ActorOverlay(
    loadedRamAddr: Option<Ptr>,
    vramStart: U32,
    vramEnd: U32,
    initInfo: U32   // virtual address of the overlay's actor-init record
  )

  predicate InWindow(info: ResolveInfo, vram: U32) {
    info.virtStart <= vram < info.virtEnd
  }

  /** `resolve`: fails closed unless the overlay is loaded and `vram` lies in its window. */
  function Resolve(info: ResolveInfo, vram: U32): (r: Option<Ptr>)
    ensures r.None? <==> info.ram.None? || vram < info.virtStart || vram >= info.virtEnd
    ensures r.Some? ==> r.value == info.ram.value + (vram - info.virtStart)
    ensures r.Some? ==> info.ram.value <= r.value < info.ram.value + (info.virtEnd - info.virtStart)
  {
    if info.ram.Some? && info.virtStart <= vram && vram < info.virtEnd then
      var offset: U32 := vram - info.virtStart;
      Some(info.ram.value + offset)
    else
      None
  }

  /** The inverse mapping: which virtual address of the window a RAM address inside the loaded copy stands for. */
  function Unresolve(info: ResolveInfo, p: Ptr): (r: Option<U32>)
    ensures r.Some? ==> InWindow(info, r.value) && Resolve(info, r.value) == Some(p)
  {
    if info.ram.Some? && info.ram.value <= p && p - info.ram.value < info.virtEnd - info.virtStart then
      Some(info.virtStart + (p - info.ram.value))
    else
      None
  }

  /** Resolving then un-resolving gives back the virtual address: no two addresses of the window share a RAM address. */
  lemma ResolveRoundTrip(info: ResolveInfo, vram: U32)
    requires Resolve(info, vram).Some?
    ensures Unresolve(info, Resolve(info, vram).value) == Some(vram)
  {
  }

  lemma ResolveInjective(info: ResolveInfo, v1: U32, v2: U32)
    requires Resolve(info, v1).Some? && Resolve(info, v1) == Resolve(info, v2)
    ensures v1 == v2
  {
    ResolveRoundTrip(info, v1);
    ResolveRoundTrip(info, v2);
  }

  /** `reloc_resolve_actor_overlay`: resolution against the overlay table entry's own window. */
  function ResolveActorOverlay(ovl: ActorOverlay, vram: U32): (r: Option<Ptr>)
    ensures r.Some? <==> ovl.loadedRamAddr.Some? && ovl.vramStart <= vram < ovl.vramEnd
    ensures r.Some? ==> r.value == ovl.loadedRamAddr.value + (vram - ovl.vramStart)
  {
    Resolve(ResolveInfo(ovl.loadedRamAddr, ovl.vramStart, ovl.vramEnd), vram)
  }

  /** `reloc_resolve_actor_init`: the RAM address of the overlay's actor-init record, if the overlay is loaded and the record lies inside it. */
  function ResolveActorInit(ovl: ActorOverlay): (r: Option<Ptr>)
    ensures r.Some? <==> ovl.loadedRamAddr.Some? && ovl.vramStart <= ovl.initInfo < ovl.vramEnd
    ensures r.Some? ==> r.value - ovl.loadedRamAddr.value == ovl.initInfo - ovl.vramStart
  {
    ResolveActorOverlay(ovl, ovl.initInfo)
  }

  /** An overlay that is not loaded resolves nothing, whatever its window. */
  lemma UnloadedResolvesNothing(ovl: ActorOverlay, vram: U32)
    requires ovl.loadedRamAddr.None?
    ensures ResolveActorOverlay(ovl, vram).None? && ResolveActorInit(ovl).None?
  {
  }

}
