/**
 * The player's equipment slots and sprite-index mapping
 * (Sources/HelbreathRaylib/player.h): an `Equip` slot accepts only items
 * whose metadata entry has the slot's equip type, and the
 * `GetPlayer*AnimationIndex` functions turn a model (body, hair, underwear
 * or item), a stance, an animation and a weapon into the index of a sprite
 * sheet.
 *
 * The sprite-sheet constants (`SPR_GAME_ANIMATIONS::PAK_INDEX_*` and the
 * `MDLID_*` model bases) are defined outside player.h; they are parameters
 * here, grouped in `AnimOffsets` and `ModelBases`.
 */
module PlayerModel {
  import opened Wrappers
  import opened EntityGeometry
  import Arith

  const TWO16: int := 0x1_0000
  const U32_LIMIT: nat := 0x1_0000_0000

  /** `EquipType` (ItemMetadata.h:11-23); `None` is `NoEquip` here. */
  datatype EquipType = Head | Back | Shirt | Chest | Legs | Feet | Weapon | Shield | Accessory | NoEquip

  /** `ItemMetadataEntry` (ItemMetadata.h:34-41), reduced to the fields `TryEquip` reads. */
  datatype ItemMetadataEntry = ItemMetadataEntry(id: nat, equipType: EquipType)

  /** A value of `int16_t`. */
  predicate IsI16(v: int)
  {
    -TWO16 / 2 <= v < TWO16 / 2
  }

  /** `static_cast<uint32_t>` of a signed value: two's complement wrap-around. */
  function ToU32(v: int): (r: nat)
    ensures r < U32_LIMIT
    ensures 0 <= v < U32_LIMIT ==> r == v
    ensures -(U32_LIMIT as int) <= v < 0 ==> r == v + U32_LIMIT
  {
    v % U32_LIMIT
  }

  /** The index of the first metadata entry with the id: the iterator `std::find_if` returns in `TryEquip`. */
  function FirstEntry(metadata: seq<ItemMetadataEntry>, id: nat): Option<nat>
  {
    FirstWhere(metadata, (e: ItemMetadataEntry) => e.id == id)
  }

  /** Every id occurs in at most one metadata entry. */
  predicate UniqueIds(metadata: seq<ItemMetadataEntry>)
  {
    forall i, j | 0 <= i < j < |metadata| :: metadata[i].id != metadata[j].id
  }

  /** `Equip<Type>` (player.h:25-50): one equipment slot of a fixed type, holding an item id or -1. */
  class Equip {
    const slotType: EquipType
    var id: int

    /** A new slot is empty (player.h:49). */
    constructor (slotType: EquipType)
      ensures this.slotType == slotType && id == -1
    {
      this.slotType := slotType;
      id := -1;
    }

    /** `Id` (player.h:46). */
    function Id(): int
      reads this
    {
      id
    }

    /**
     * `TryEquip` (player.h:31-42): the first metadata entry whose id is the
     * item id, read as `uint32_t`, decides; the item is equipped exactly
     * when that entry exists and has the slot's type, and a refused item
     * leaves the slot as it was.
     */
    method TryEquip(itemId: int, metadata: seq<ItemMetadataEntry>) returns (ok: bool)
      requires IsI16(itemId)
      modifies this
      ensures ok <==> exists i | 0 <= i < |metadata| ::
        metadata[i].id == ToU32(itemId) && metadata[i].equipType == slotType &&
        forall j | 0 <= j < i :: metadata[j].id != ToU32(itemId)
      ensures ok ==> id == itemId
      ensures !ok ==> id == old(id)
    {
      var it := FirstEntry(metadata, ToU32(itemId));
      if it.None? {
        return false;
      }
      if metadata[it.value].equipType != slotType {
        return false;
      }
      id := itemId;
      ok := true;
    }

    /** `Unequip` (player.h:44): the slot becomes empty. */
    method Unequip()
      modifies this
      ensures id == -1
    {
      id := -1;
    }
  }

  /**
   * With unique ids in the metadata, the first match is the only one:
   * `TryEquip` accepts exactly the items some entry lists with the slot's type.
   */
  lemma UniqueIdsDecide(metadata: seq<ItemMetadataEntry>, itemId: int, slotType: EquipType)
    requires UniqueIds(metadata)
    ensures (exists i | 0 <= i < |metadata| ::
        metadata[i].id == ToU32(itemId) && metadata[i].equipType == slotType &&
        forall j | 0 <= j < i :: metadata[j].id != ToU32(itemId))
      <==> exists i | 0 <= i < |metadata| :: metadata[i].id == ToU32(itemId) && metadata[i].equipType == slotType
  {
    if i :| 0 <= i < |metadata| && metadata[i].id == ToU32(itemId) && metadata[i].equipType == slotType {
      forall j | 0 <= j < i
        ensures metadata[j].id != ToU32(itemId)
      {
        assert metadata[j].id != metadata[i].id;
      }
    }
  }

  /** A negative item id is looked up as a large unsigned id, so it never matches an id below 2^31. */
  lemma NegativeIdIsLarge(itemId: int)
    requires IsI16(itemId) && itemId < 0
    ensures ToU32(itemId) >= U32_LIMIT - TWO16 / 2
  {
  }

  /** The `SPR_GAME_ANIMATIONS::PAK_INDEX_*` offsets of each animation within a model's sheets. */
  datatype AnimOffsets = AnimOffsets(
    standingPeace: nat, standingCombat: nat,
    walkingPeace: nat, walkingCombat: nat,
    running: nat,
    attackingPeace: nat, attackingHand: nat, attackingBow: nat, attackingCast: nat,
    pickup: nat, takeDamage: nat, dying: nat)

  /** The offset `_GetPlayerAnimation` adds to the base index (player.h:143-177). */
  function AnimOffset(o: AnimOffsets, stance: Stance, t: AnimationType, weapon: WeaponUsed): nat
  {
    match t
    case Stand => if stance == Peace then o.standingPeace else o.standingCombat
    case Walk => if stance == Peace then o.walkingPeace else o.walkingCombat
    case Run => o.running
    case Attack =>
      if stance == Peace then o.attackingPeace
      else (match weapon
            case Hand => o.attackingHand
            case Bow => o.attackingBow
            case Cast => o.attackingCast)
    case Pickup => o.pickup
    case TakeDamage => o.takeDamage
    case Dying => o.dying
  }

  /** `_GetPlayerAnimation` (player.h:141-178): the base plus the animation's offset, as a `size_t`. */
  function PlayerAnimation(o: AnimOffsets, baseIndex: nat, stance: Stance, t: AnimationType, weapon: WeaponUsed): (r: nat)
    ensures r < TWO64
    ensures baseIndex + AnimOffset(o, stance, t, weapon) < TWO64 ==> r == baseIndex + AnimOffset(o, stance, t, weapon)
  {
    (baseIndex + AnimOffset(o, stance, t, weapon)) % TWO64
  }

  /** Running uses one sheet whatever the stance and the weapon. */
  lemma RunIgnoresStance(o: AnimOffsets, baseIndex: nat, s1: Stance, s2: Stance, w1: WeaponUsed, w2: WeaponUsed)
    ensures PlayerAnimation(o, baseIndex, s1, Run, w1) == PlayerAnimation(o, baseIndex, s2, Run, w2)
  {
  }

  /** Only an attack in combat stance looks at the weapon; in particular an attack in peace ignores it. */
  lemma WeaponOnlyForCombatAttack(o: AnimOffsets, baseIndex: nat, s: Stance, t: AnimationType, w1: WeaponUsed, w2: WeaponUsed)
    requires t != Attack || s == Peace
    ensures PlayerAnimation(o, baseIndex, s, t, w1) == PlayerAnimation(o, baseIndex, s, t, w2)
  {
  }

  /** The `MDLID_*` model bases of the gendered body, underwear, hair styles and item sheets. */
  datatype ModelBases = ModelBases(
    maleGameModel: nat, femaleGameModel: nat,
    maleUnderwear: nat, femaleUnderwear: nat,
    maleHair: seq<nat>, femaleHair: seq<nat>,
    maleItemStart: int, femaleItemStart: int)

  /** The seven hair-style bases of each gender are given. */
  predicate WellFormedBases(m: ModelBases)
  {
    |m.maleHair| == 7 && |m.femaleHair| == 7
  }

  /** `GetPlayerUnderwearAnimationIndex` (player.h:180-187). */
  function UnderwearAnimationIndex(o: AnimOffsets, m: ModelBases, stance: Stance, t: AnimationType, weapon: WeaponUsed, g: Gender): nat
  {
    var baseIndex := if g == Male then m.maleUnderwear else m.femaleUnderwear;
    PlayerAnimation(o, baseIndex, stance, t, weapon)
  }

  /** `Gender` (player.h:20-23). */
  datatype Gender = Male | Female

  /**
   * `GetPlayerHairAnimationIndex` (player.h:189-222). `style` is the
   * `HairStyle` value: -1 is bald and 0 to 6 are styles 1 to 7. A style
   * outside 0 to 6 gives index 0 without any animation offset.
   */
  function HairAnimationIndex(o: AnimOffsets, m: ModelBases, stance: Stance, t: AnimationType, weapon: WeaponUsed, g: Gender, style: int): (r: nat)
    requires WellFormedBases(m)
    ensures !(0 <= style < 7) ==> r == 0
    ensures 0 <= style < 7 && g == Male && m.maleHair[style] + AnimOffset(o, stance, t, weapon) < TWO64 ==>
      r == m.maleHair[style] + AnimOffset(o, stance, t, weapon)
    ensures 0 <= style < 7 && g == Female && m.femaleHair[style] + AnimOffset(o, stance, t, weapon) < TWO64 ==>
      r == m.femaleHair[style] + AnimOffset(o, stance, t, weapon)
  {
    if !(0 <= style < 7) then 0
    else
      var baseIndex := if g == Male then m.maleHair[style] else m.femaleHair[style];
      PlayerAnimation(o, baseIndex, stance, t, weapon)
  }

  /** `GetPlayerAnimationIndex` (player.h:224-231). */
  function GameModelAnimationIndex(o: AnimOffsets, m: ModelBases, stance: Stance, t: AnimationType, weapon: WeaponUsed, g: Gender): nat
  {
    var baseIndex := if g == Male then m.maleGameModel else m.femaleGameModel;
    PlayerAnimation(o, baseIndex, stance, t, weapon)
  }

  /** The base index of an item's sheets: `start + itemId * 24`, stored into a `size_t` (player.h:235-238). */
  function ItemBase(start: int, itemId: int): (r: nat)
    ensures r < TWO64
    ensures 0 <= start + itemId * 24 < TWO64 ==> r == start + itemId * 24
  {
    ToU64(start + itemId * 24)
  }

  /** `GetPlayerItemAnimationIndex` (player.h:233-241). */
  function ItemAnimationIndex(o: AnimOffsets, m: ModelBases, itemId: int, stance: Stance, t: AnimationType, weapon: WeaponUsed, g: Gender): nat
    requires IsI16(itemId)
  {
    var baseIndex := if g == Male then ItemBase(m.maleItemStart, itemId) else ItemBase(m.femaleItemStart, itemId);
    PlayerAnimation(o, baseIndex, stance, t, weapon)
  }

  /**
   * Every item owns a block of 24 consecutive sheets: sheet k of one item
   * and sheet k' of a different item never share an index, as long as both
   * lie in the `size_t` range.
   */
  lemma ItemSheetsDisjoint(start: int, i: int, j: int, k: nat, k': nat)
    requires i != j && k < 24 && k' < 24
    requires 0 <= start + i * 24 && start + i * 24 + k < TWO64
    requires 0 <= start + j * 24 && start + j * 24 + k' < TWO64
    ensures ItemBase(start, i) + k != ItemBase(start, j) + k'
  {
    if i < j {
      Arith.MulAtLeast(j - i, 24);
      assert j * 24 - i * 24 == (j - i) * 24;
    } else {
      Arith.MulAtLeast(i - j, 24);
      assert i * 24 - j * 24 == (i - j) * 24;
    }
  }

  /** The body index is the gender's body base plus the animation's offset, when the sum fits a `size_t`. */
  lemma GameModelIndexAddsOffset(o: AnimOffsets, m: ModelBases, stance: Stance, t: AnimationType, weapon: WeaponUsed, g: Gender)
    ensures var body := if g == Male then m.maleGameModel else m.femaleGameModel;
      body + AnimOffset(o, stance, t, weapon) < TWO64 ==>
        GameModelAnimationIndex(o, m, stance, t, weapon, g) == body + AnimOffset(o, stance, t, weapon)
  {
  }

  /** The underwear index is the gender's underwear base plus the animation's offset, when the sum fits a `size_t`. */
  lemma UnderwearIndexAddsOffset(o: AnimOffsets, m: ModelBases, stance: Stance, t: AnimationType, weapon: WeaponUsed, g: Gender)
    ensures var under := if g == Male then m.maleUnderwear else m.femaleUnderwear;
      under + AnimOffset(o, stance, t, weapon) < TWO64 ==>
        UnderwearAnimationIndex(o, m, stance, t, weapon, g) == under + AnimOffset(o, stance, t, weapon)
  {
  }

  /** The item index is `start + itemId * 24` plus the animation's offset, when that fits a `size_t`. */
  lemma ItemIndexAddsOffset(o: AnimOffsets, m: ModelBases, itemId: int, stance: Stance, t: AnimationType, weapon: WeaponUsed, g: Gender)
    requires IsI16(itemId)
    ensures var item := (if g == Male then m.maleItemStart else m.femaleItemStart) + itemId * 24;
      0 <= item && item + AnimOffset(o, stance, t, weapon) < TWO64 ==>
        ItemAnimationIndex(o, m, itemId, stance, t, weapon, g) == item + AnimOffset(o, stance, t, weapon)
  {
  }
}
