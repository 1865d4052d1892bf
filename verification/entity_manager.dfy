/**
 * The entity registry (Sources/HelbreathRaylib/EntityManager.h): an owning
 * vector of entities in insertion order, and a map from GUID to entity for
 * lookup. `Add`, `Remove` and `Clear` keep the two containers in step.
 *
 * GUIDs are natural numbers; an entity is reduced to the GUID it was
 * created with.
 */
module EntityManagerModel {

  /** An `Entity`, as far as the registry looks at it: its GUID, fixed at construction. */
  class ManagedEntity {
    const guid: nat

    constructor (guid: nat)
      ensures this.guid == guid
    {
      this.guid := guid;
    }
  }

  /** The GUIDs of a sequence of entities. */
  function Guids(s: seq<ManagedEntity>): set<nat>
  {
    set e | e in s :: e.guid
  }

  /** No two entries of s share a GUID. */
  predicate DistinctGuids(s: seq<ManagedEntity>)
  {
    forall i, j | 0 <= i < j < |s| :: s[i].guid != s[j].guid
  }

  /** The index of the first entity of s with the GUID: the iterator `std::find_if` returns in `Remove`. */
  function FirstWithGuid(s: seq<ManagedEntity>, guid: nat): (r: int)
    ensures -1 <= r < |s|
    ensures 0 <= r ==> s[r].guid == guid && forall j | 0 <= j < r :: s[j].guid != guid
    ensures r == -1 <==> guid !in Guids(s)
    decreases |s|
  {
    if |s| == 0 then -1
    else if s[0].guid == guid then 0
    else
      var r := FirstWithGuid(s[1..], guid);
      assert Guids(s) == {s[0].guid} + Guids(s[1..]);
      if r == -1 then -1 else r + 1
  }

  /** Erasing one entry of a sequence with distinct GUIDs removes exactly that entry's GUID. */
  lemma EraseGuid(s: seq<ManagedEntity>, i: nat)
    requires i < |s| && DistinctGuids(s)
    ensures DistinctGuids(s[..i] + s[i + 1..])
    ensures Guids(s[..i] + s[i + 1..]) == Guids(s) - {s[i].guid}
  {
    var t := s[..i] + s[i + 1..];
    forall a, b | 0 <= a < b < |t|
      ensures t[a].guid != t[b].guid
    {
      var a' := if a < i then a else a + 1;
      var b' := if b < i then b else b + 1;
      assert t[a] == s[a'] && t[b] == s[b'];
    }
    forall k | k in Guids(s) - {s[i].guid}
      ensures k in Guids(t)
    {
      var e :| e in s && e.guid == k;
      var j :| 0 <= j < |s| && s[j] == e;
      assert j != i;
      var j' := if j < i then j else j - 1;
      assert t[j'] == e;
    }
    forall k | k in Guids(t)
      ensures k in Guids(s) - {s[i].guid}
    {
      var e :| e in t && e.guid == k;
      var j :| 0 <= j < |t| && t[j] == e;
      var j' := if j < i then j else j + 1;
      assert s[j'] == e && j' != i;
    }
  }

  /**
   * The vector and the map agree: GUIDs are unique in the vector, and the
   * map sends exactly those GUIDs to their entities.
   */
  ghost predicate Agree(s: seq<ManagedEntity>, m: map<nat, ManagedEntity>)
  {
    DistinctGuids(s) &&
    m.Keys == Guids(s) &&
    forall k | k in m :: m[k].guid == k && m[k] in s
  }

  /**
   * In agreeing containers a registered GUID is found in the vector, and
   * erasing it from both leaves them agreeing.
   */
  lemma EraseAgrees(s: seq<ManagedEntity>, m: map<nat, ManagedEntity>, guid: nat)
    requires Agree(s, m) && guid in m
    ensures var i := FirstWithGuid(s, guid);
      0 <= i && Agree(s[..i] + s[i + 1..], m - {guid})
  {
    var i := FirstWithGuid(s, guid);
    EraseGuid(s, i);
    EraseKeepsOthers(s, m, i);
    assert (m - {guid}).Keys == m.Keys - {guid};
  }

  /** Erasing entry i of the vector keeps every other entity the map points to. */
  lemma EraseKeepsOthers(s: seq<ManagedEntity>, m: map<nat, ManagedEntity>, i: nat)
    requires i < |s| && forall k | k in m :: m[k].guid == k && m[k] in s
    ensures forall k | k in m && k != s[i].guid :: m[k] in s[..i] + s[i + 1..]
  {
    var t := s[..i] + s[i + 1..];
    forall k | k in m && k != s[i].guid
      ensures m[k] in t
    {
      var e := m[k];
      var j :| 0 <= j < |s| && s[j] == e;
      assert j != i;
      if j < i {
        assert t[j] == e;
      } else {
        assert t[j - 1] == e;
      }
    }
  }

  /** `EntityManager`. */
  class EntityManager {
    var entities: seq<ManagedEntity>
    var entityMap: map<nat, ManagedEntity>

    /**
     * The two containers agree: GUIDs are unique in the vector, and the map
     * sends exactly those GUIDs to their entities.
     */
    ghost predicate Valid()
      reads this
    {
      Agree(entities, entityMap)
    }

    /** The defaulted constructor (EntityManager.h:11): both containers empty. */
    constructor ()
      ensures Valid() && entities == [] && entityMap == map[]
    {
      entities := [];
      entityMap := map[];
    }

    /** `Count` (EntityManager.h:90-92): the size of the vector. */
    function Count(): nat
      reads this
    {
      |entities|
    }

    /** `Exists` (EntityManager.h:95-97). */
    predicate Exists(guid: nat)
      reads this
    {
      guid in entityMap
    }

    /** `GetAll` (EntityManager.h:120-122): the entities in the order they were added. */
    function GetAll(): seq<ManagedEntity>
      reads this
    {
      entities
    }

    /** `Get` (EntityManager.h:41-47): the entity with the GUID, or null when there is none. */
    function Get(guid: nat): (r: ManagedEntity?)
      reads this
      ensures r == null <==> !Exists(guid)
      ensures Valid() && r != null ==> r.guid == guid && r in GetAll()
      ensures Valid() ==> (r == null <==> guid !in Guids(GetAll()))
    {
      if guid in entityMap then entityMap[guid] else null
    }

    /**
     * `Add` (EntityManager.h:23-38): the entity goes to the end of the
     * vector and the map sends its GUID to it. A GUID not yet registered
     * keeps the two containers in step.
     */
    method Add(e: ManagedEntity)
      modifies this
      ensures entities == old(entities) + [e] && entityMap == old(entityMap)[e.guid := e]
      ensures old(Valid()) && e.guid !in old(entityMap) ==> Valid() && Count() == old(Count()) + 1 && Get(e.guid) == e
    {
      entities := entities + [e];
      entityMap := entityMap[e.guid := e];
      if old(Valid()) && e.guid !in old(entityMap) {
        forall i, j | 0 <= i < j < |entities|
          ensures entities[i].guid != entities[j].guid
        {
          if j == |entities| - 1 {
            assert entities[i] in old(entities);
          } else {
            assert entities[i] == old(entities)[i] && entities[j] == old(entities)[j];
          }
        }
        assert Guids(entities) == Guids(old(entities)) + {e.guid};
      }
    }

    /** The search loop of `Remove`: the first vector entry with the GUID, or -1. */
    method FindInVector(guid: nat) returns (r: int)
      ensures r == FirstWithGuid(entities, guid)
    {
      var i := 0;
      while i < |entities|
        invariant 0 <= i <= |entities|
        invariant forall j | 0 <= j < i :: entities[j].guid != guid
      {
        if entities[i].guid == guid {
          return i;
        }
        i := i + 1;
      }
      return -1;
    }

    /**
     * `Remove` (EntityManager.h:62-81): an unknown GUID changes nothing and
     * gives false; otherwise the first vector entry with the GUID is erased,
     * the GUID leaves the map, and the result is true.
     */
    method Remove(guid: nat) returns (removed: bool)
      modifies this
      ensures removed <==> old(Exists(guid))
      ensures !removed ==> entities == old(entities) && entityMap == old(entityMap)
      ensures removed ==> entityMap == old(entityMap) - {guid}
      ensures removed ==>
        var i := FirstWithGuid(old(entities), guid);
        (i == -1 ==> entities == old(entities)) &&
        (i >= 0 ==> entities == old(entities)[..i] + old(entities)[i + 1..])
      ensures old(Valid()) ==> Valid() && !Exists(guid) && Count() == old(Count()) - (if removed then 1 else 0)
    {
      if guid !in entityMap {
        return false;
      }
      if Valid() {
        EraseAgrees(entities, entityMap, guid);
      }
      var i := FindInVector(guid);
      if i >= 0 {
        entities := entities[..i] + entities[i + 1..];
      }
      entityMap := entityMap - {guid};
      removed := true;
    }

    /** `Clear` (EntityManager.h:84-87): both containers are emptied. */
    method Clear()
      modifies this
      ensures Valid() && entities == [] && entityMap == map[] && Count() == 0
    {
      entities := [];
      entityMap := map[];
    }
  }

  /** In a registry whose containers agree, `Count` is also the number of GUIDs the map holds. */
  lemma CountIsMapSize(m: EntityManager)
    requires m.Valid()
    ensures m.Count() == |m.entityMap.Keys|
  {
    DistinctCount(m.entities);
  }

  /** In a sequence with distinct GUIDs there are as many GUIDs as entries. */
  lemma {:induction false} DistinctCount(s: seq<ManagedEntity>)
    requires DistinctGuids(s)
    ensures |Guids(s)| == |s|
    decreases |s|
  {
    if |s| > 0 {
      var t := s[..|s| - 1];
      assert DistinctGuids(t);
      DistinctCount(t);
      assert Guids(s) == Guids(t) + {s[|s| - 1].guid};
      assert s[|s| - 1].guid !in Guids(t);
    }
  }
}
