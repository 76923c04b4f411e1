/**
  The arrow variant catalog: the four-entry table `g_arrows`, lookup by actor
  variable, the successor order Normal -> Fire -> Ice -> Light -> Normal, the
  magic cost of a variant and the selection walk that picks the next variant
  the player owns and can afford.
*/
module Catalog {
  import opened Wrappers
  import opened Machine

  // Item ids of the game's item enumeration.
  const ITEM_BOW: U8 := 0x03
  const ITEM_FIRE_ARROW: U8 := 0x04
  const ITEM_ICE_ARROW: U8 := 0x0C
  const ITEM_LIGHT_ARROW: U8 := 0x12
  const ITEM_BOW_FIRE_ARROW: U8 := 0x38
  const ITEM_BOW_ICE_ARROW: U8 := 0x39
  const ITEM_BOW_LIGHT_ARROW: U8 := 0x3A

  // Inventory slots of the save file's `items[24]`.
  const ITEM_SLOTS: nat := 24
  const SLOT_BOW: U8 := 3
  const SLOT_FIRE_ARROW: U8 := 4
  const SLOT_ICE_ARROW: U8 := 10
  const SLOT_LIGHT_ARROW: U8 := 16

  /** `struct arrow_info`: the inventory item, its slot, the C-button icon, the player action and the arrow actor's variable. */
  datatype ArrowInfo = ArrowInfo(item: U8, slot: U8, icon: U8, action: U8, variable: U16)

  /** `g_arrows`, in table order. */
  const Arrows: seq<ArrowInfo> := [
    ArrowInfo(ITEM_BOW,         SLOT_BOW,         ITEM_BOW,             0x8, 0x2),
    ArrowInfo(ITEM_FIRE_ARROW,  SLOT_FIRE_ARROW,  ITEM_BOW_FIRE_ARROW,  0x9, 0x3),
    ArrowInfo(ITEM_ICE_ARROW,   SLOT_ICE_ARROW,   ITEM_BOW_ICE_ARROW,   0xA, 0x4),
    ArrowInfo(ITEM_LIGHT_ARROW, SLOT_LIGHT_ARROW, ITEM_BOW_LIGHT_ARROW, 0xB, 0x5)
  ]

  /** The arrow actor variables that name a variant (the gate `2 <= variable < 6`). */
  predicate IsVariant(v: int) {
    2 <= v < 6
  }

  /**
    Reference definition of `get_info`: the variant a variable names, written
    as a case table rather than a search.
  */
  function InfoOf(v: U16): (r: Option<ArrowInfo>)
    ensures r.Some? <==> IsVariant(v)
    ensures r.Some? ==> r.value in Arrows && r.value.variable == v && r.value.slot < ITEM_SLOTS
  {
    if v == 2 then Some(Arrows[0])
    else if v == 3 then Some(Arrows[1])
    else if v == 4 then Some(Arrows[2])
    else if v == 5 then Some(Arrows[3])
    else None
  }

  /** The table entry with a given variable is unique: any entry carrying `v` is the one `InfoOf` returns. */
  lemma InfoOfUnique(v: U16, a: ArrowInfo)
    requires a in Arrows && a.variable == v
    ensures InfoOf(v) == Some(a)
  {
  }

  /** `get_info`: the linear search of `g_arrows` for the entry whose `var` equals `v`. */
  method GetInfo(v: U16) returns (r: Option<ArrowInfo>)
    ensures r == InfoOf(v)
  {
    for i := 0 to 4
      invariant forall j :: 0 <= j < i ==> Arrows[j].variable != v
    {
      if Arrows[i].variable == v {
        return Some(Arrows[i]);
      }
    }
    return None;
  }

  /** `get_next_arrow_variable`: the successor in the 4-cycle 2 -> 3 -> 4 -> 5 -> 2, the identity elsewhere. */
  function NextVariable(v: U16): (r: U16)
    ensures IsVariant(r) <==> IsVariant(v)
    ensures !IsVariant(v) ==> r == v
    ensures IsVariant(v) ==> r != v
  {
    if v == 2 then 3
    else if v == 3 then 4
    else if v == 4 then 5
    else if v == 5 then 2
    else v
  }

  /** The candidates `get_next_info` visits from `cur` in `n` successor steps, in order. */
  function Walk(cur: U16, n: nat): (s: seq<U16>)
    ensures |s| == n
    decreases n
  {
    if n == 0 then [] else [NextVariable(cur)] + Walk(NextVariable(cur), n - 1)
  }

  /**
    On the four variants the successor is a single cycle of period 4: the
    four-step walk visits every variant exactly once and comes back to its
    start only on the fourth step.
  */
  lemma NextVariableCycle(v: U16)
    requires IsVariant(v)
    ensures Walk(v, 4)[3] == v
    ensures forall k :: 0 <= k < 3 ==> Walk(v, 4)[k] != v
    ensures forall w :: IsVariant(w) ==> w in Walk(v, 4)
    ensures Walk(v, 4)[0] == if v == 5 then 2 else v + 1
  {
    var a := NextVariable(v);
    var b := NextVariable(a);
    var c := NextVariable(b);
    assert Walk(v, 4) == [a, b, c, NextVariable(c)];
    if v == 2 {
      assert Walk(v, 4) == [3, 4, 5, 2];
    } else if v == 3 {
      assert Walk(v, 4) == [4, 5, 2, 3];
    } else if v == 4 {
      assert Walk(v, 4) == [5, 2, 3, 4];
    } else {
      assert Walk(v, 4) == [2, 3, 4, 5];
    }
  }

  /** Outside the four variants the successor walk never moves. */
  lemma {:induction false} WalkFixed(v: U16, n: nat)
    requires !IsVariant(v)
    ensures forall k :: 0 <= k < n ==> Walk(v, n)[k] == v
  {
    if n > 0 {
      WalkFixed(v, n - 1);
    }
  }

  /** `get_magic_cost_by_info`: 4 for fire and ice arrows, 8 for light arrows, 0 for anything else. */
  function MagicCost(info: ArrowInfo): (r: I8)
    ensures 0 <= r <= 8
  {
    if info.item == ITEM_FIRE_ARROW then 4
    else if info.item == ITEM_ICE_ARROW then 4
    else if info.item == ITEM_LIGHT_ARROW then 8
    else 0
  }

  /** The costs of the four variants are 0/4/4/8, and only the plain bow is free. */
  lemma MagicCostOfVariants(v: U16)
    requires IsVariant(v)
    ensures MagicCost(InfoOf(v).value) == [0, 4, 4, 8][v - 2]
    ensures MagicCost(InfoOf(v).value) == 0 <==> InfoOf(v).value.item == ITEM_BOW
  {
  }

  /** `is_arrow_item`: the C-button icon shows the bow with some kind of arrow. */
  function IsArrowItem(item: U8): (r: bool)
    ensures r <==> exists a :: a in Arrows && a.icon == item
  {
    assert Arrows[0].icon == ITEM_BOW && Arrows[1].icon == ITEM_BOW_FIRE_ARROW;
    assert Arrows[2].icon == ITEM_BOW_ICE_ARROW && Arrows[3].icon == ITEM_BOW_LIGHT_ARROW;
    item == ITEM_BOW || item == ITEM_BOW_FIRE_ARROW || item == ITEM_BOW_ICE_ARROW || item == ITEM_BOW_LIGHT_ARROW
  }

  /**
    The acceptance test of `get_next_info` for candidate variable `c` when the
    walk started at `start`: `c` is a variant, its inventory slot holds its
    item, and `magic >= cost(start) - cost(c)`.
  */
  predicate Qualifies(start: U16, c: U16, items: seq<U8>, magic: I8)
    requires IsVariant(start) && |items| == ITEM_SLOTS
  {
    && InfoOf(c).Some?
    && InfoOf(c).value.item == items[InfoOf(c).value.slot]
    && magic >= MagicCost(InfoOf(start).value) - MagicCost(InfoOf(c).value)
  }

  /** The walk of `get_next_info` from `cur`, with `n` steps left. */
  function SelectFrom(start: U16, cur: U16, n: nat, items: seq<U8>, magic: I8): (r: Option<ArrowInfo>)
    requires IsVariant(start) && |items| == ITEM_SLOTS
    ensures r.Some? ==> r.value in Arrows && items[r.value.slot] == r.value.item
    ensures r.Some? ==> magic >= MagicCost(InfoOf(start).value) - MagicCost(r.value)
    decreases n
  {
    if n == 0 then None
    else
      var c := NextVariable(cur);
      if Qualifies(start, c, items, magic) then InfoOf(c)
      else SelectFrom(start, c, n - 1, items, magic)
  }

  /** Specification of `get_next_info(v)`: the four-step walk from `v`. */
  function SelectNext(v: U16, items: seq<U8>, magic: I8): (r: Option<ArrowInfo>)
    requires IsVariant(v) && |items| == ITEM_SLOTS
    ensures r.Some? ==> IsVariant(r.value.variable) && InfoOf(r.value.variable) == r
    ensures r.Some? ==> items[r.value.slot] == r.value.item
    ensures r.Some? ==> magic >= MagicCost(InfoOf(v).value) - MagicCost(r.value)
  {
    SelectFrom(v, v, 4, items, magic)
  }

  /**
    The walk returns the FIRST qualifying candidate in successor order within
    `n` steps, and nothing exactly when no candidate qualifies.
  */
  lemma {:induction false} SelectFromFirstMatch(start: U16, cur: U16, n: nat, items: seq<U8>, magic: I8)
    requires IsVariant(start) && |items| == ITEM_SLOTS
    ensures SelectFrom(start, cur, n, items, magic).None? ==>
              forall k :: 0 <= k < n ==> !Qualifies(start, Walk(cur, n)[k], items, magic)
    ensures (forall k :: 0 <= k < n ==> !Qualifies(start, Walk(cur, n)[k], items, magic)) ==>
              SelectFrom(start, cur, n, items, magic).None?
    ensures SelectFrom(start, cur, n, items, magic).Some? ==>
              exists k :: 0 <= k < n && Qualifies(start, Walk(cur, n)[k], items, magic)
                          && SelectFrom(start, cur, n, items, magic) == InfoOf(Walk(cur, n)[k])
                          && forall j :: 0 <= j < k ==> !Qualifies(start, Walk(cur, n)[j], items, magic)
    decreases n
  {
    if n > 0 {
      var c := NextVariable(cur);
      var w := Walk(cur, n);
      var rest := Walk(c, n - 1);
      assert w == [c] + rest;
      if !Qualifies(start, c, items, magic) {
        SelectFromFirstMatch(start, c, n - 1, items, magic);
        if SelectFrom(start, cur, n, items, magic).Some? {
          var k :| 0 <= k < n - 1 && Qualifies(start, rest[k], items, magic)
                   && SelectFrom(start, c, n - 1, items, magic) == InfoOf(rest[k])
                   && forall j :: 0 <= j < k ==> !Qualifies(start, rest[j], items, magic);
          assert w[k + 1] == rest[k];
          assert forall j :: 0 <= j < k + 1 ==> !Qualifies(start, w[j], items, magic) by {
            forall j | 0 <= j < k + 1 ensures !Qualifies(start, w[j], items, magic) {
              if j > 0 { assert w[j] == rest[j - 1]; }
            }
          }
        } else {
          forall k | 0 <= k < n ensures !Qualifies(start, w[k], items, magic) {
            if k > 0 { assert w[k] == rest[k - 1]; } else { assert w[k] == c; }
          }
          assert SelectFrom(start, cur, n, items, magic) == SelectFrom(start, c, n - 1, items, magic);
        }
      } else {
        assert w[0] == c;
        assert SelectFrom(start, cur, n, items, magic) == InfoOf(c);
        assert !(forall k :: 0 <= k < n ==> !Qualifies(start, w[k], items, magic));
      }
    }
  }

  /**
    `get_next_info` as promised: its result is the first variant, in successor
    order within four steps, that is owned and passes the delta check; the
    fourth candidate is the starting variant itself; and it is NULL exactly
    when none of the four qualifies.
  */
  lemma SelectNextFirstMatch(v: U16, items: seq<U8>, magic: I8)
    requires IsVariant(v) && |items| == ITEM_SLOTS
    ensures Walk(v, 4)[3] == v
    ensures SelectNext(v, items, magic).None? <==>
              forall k :: 0 <= k < 4 ==> !Qualifies(v, Walk(v, 4)[k], items, magic)
    ensures SelectNext(v, items, magic).Some? ==>
              exists k :: 0 <= k < 4 && Qualifies(v, Walk(v, 4)[k], items, magic)
                          && SelectNext(v, items, magic) == InfoOf(Walk(v, 4)[k])
                          && forall j :: 0 <= j < k ==> !Qualifies(v, Walk(v, 4)[j], items, magic)
  {
    NextVariableCycle(v);
    SelectFromFirstMatch(v, v, 4, items, magic);
  }

  /**
    The walk may come back to where it started: when none of the other three
    variants qualifies but the current one is owned (its own delta is 0),
    the result is the current variant, which the caller treats as "no change".
  */
  lemma SelectNextMayReturnStart(v: U16, items: seq<U8>, magic: I8)
    requires IsVariant(v) && |items| == ITEM_SLOTS && magic >= 0
    requires items[InfoOf(v).value.slot] == InfoOf(v).value.item
    requires forall k :: 0 <= k < 3 ==> !Qualifies(v, Walk(v, 4)[k], items, magic)
    ensures SelectNext(v, items, magic) == InfoOf(v)
  {
    SelectNextFirstMatch(v, items, magic);
    assert Qualifies(v, Walk(v, 4)[3], items, magic);
  }

  /** `get_next_info`: the loop over four successor steps, returning the first acceptable entry. */
  method GetNextInfo(v: U16, items: seq<U8>, magic: I8) returns (r: Option<ArrowInfo>)
    requires IsVariant(v) && |items| == ITEM_SLOTS
    ensures r == SelectNext(v, items, magic)
  {
    var start := GetInfo(v);
    var magicCost := MagicCost(start.value);
    var current := v;
    for i := 0 to 4
      invariant SelectFrom(v, current, 4 - i, items, magic) == SelectNext(v, items, magic)
    {
      current := NextVariable(current);
      var info := GetInfo(current);
      if info.Some? && info.value.item == items[info.value.slot] && magic >= magicCost - MagicCost(info.value) {
        return info;
      }
    }
    return None;
  }

}
