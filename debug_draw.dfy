/*
 * Model of the resource editor's DebugDrawSystem bookkeeping
 * (Programs/ResourceEditor/Classes/DebugDraw/Private/DebugDrawSystem.cpp):
 * which entities the system tracks, which of them are listed per drawable
 * component type, the order in which a type's entities are drawn, and the
 * colour chosen for the requested scene-object type.
 *
 * Entities are heap objects compared by identity, as the source compares
 * pointers. The drawing routines themselves are named, not modelled.
 */
module DebugDraw {

  /** Component::eType; Other stands for every type without a debug drawing. */
  datatype ComponentType = SoundComponent | WindComponent | GeoDecalComponent | LightComponent | Other(id: nat)

  /** The member functions the constructor stores in drawComponentFunctionsMap. */
  datatype DrawFunction = DrawSoundNode | DrawWindNode | DrawDecals | DrawLightNode(bound: bool)

  datatype Color = Color(r: real, g: real, b: real, a: real)

  /** eSceneObjectType's "no object type" value. */
  const ESOT_NONE: int := -1
  const FallbackColor := Color(1.0, 0.0, 0.0, 1.0)

  /** An entity with its components, listed by type in the entity's own order. */
  class Entity {
    const components: seq<ComponentType>

    constructor (components: seq<ComponentType>)
      ensures this.components == components
    {
      this.components := components;
    }

    /** How many components of type t the entity has. */
    function GetComponentCount(t: ComponentType): (r: nat)
      reads this
      ensures r <= |components|
      ensures r > 0 <==> t in components
    {
      multiset(components)[t]
    }
  }

  /** The drawing function registered for each drawable type. */
  const DrawComponentFunctions: map<ComponentType, DrawFunction> :=
    map[SoundComponent := DrawSoundNode, WindComponent := DrawWindNode,
        GeoDecalComponent := DrawDecals, LightComponent := DrawLightNode(false)]

  /** Exactly the sound, wind, geo-decal and light components have a debug drawing. */
  lemma DrawableTypes(t: ComponentType)
    ensures t in DrawComponentFunctions <==> t.SoundComponent? || t.WindComponent? || t.GeoDecalComponent? || t.LightComponent?
  {
  }

  /** The C++ conversion of an int to uint32: reduction modulo 2^32. */
  function ToUInt32(x: int): (r: nat)
    ensures r < 0x1_0000_0000
    ensures 0 <= x < 0x1_0000_0000 ==> r == x
    ensures -0x1_0000_0000 <= x < 0 ==> r == x + 0x1_0000_0000
  {
    x % 0x1_0000_0000
  }

  /**
   * SetRequestedObjectType's colour: colors[type] when (uint32)type is below
   * (uint32)colors.size(), red otherwise. A negative type wraps to an index
   * of at least 2^31, so it gets red unless there are more colours than that.
   */
  function ObjectTypeColor(objectType: int, colors: seq<Color>): (c: Color)
    requires -0x8000_0000 <= objectType < 0x8000_0000
    ensures |colors| < 0x1_0000_0000 && 0 <= objectType < |colors| ==> c == colors[objectType]
    ensures |colors| <= 0x8000_0000 && (objectType < 0 || objectType >= |colors|) ==> c == FallbackColor
  {
    if ToUInt32(objectType) < ToUInt32(|colors|) then colors[ToUInt32(objectType)] else FallbackColor
  }

  /** The list with e appended, unless it is already there. */
  function AppendOnce(list: seq<Entity>, e: Entity): (r: seq<Entity>)
    ensures e in r
  {
    if e in list then list else list + [e]
  }

  /** The list for t, or the empty one when t has none. */
  function ListFor(m: map<ComponentType, seq<Entity>>, t: ComponentType): seq<Entity>
  {
    if t in m then m[t] else []
  }

  /** The per-type lists after listing entity under a component of type t: appended once, drawable types only. */
  function Registered(m: map<ComponentType, seq<Entity>>, t: ComponentType, entity: Entity): (r: map<ComponentType, seq<Entity>>)
    ensures t in DrawComponentFunctions ==>
              t in r && r == m[t := r[t]] &&
              entity in r[t] &&
              (t in m ==>
                 (entity in m[t] ==> r[t] == m[t]) &&
                 (entity !in m[t] ==> r[t] == m[t] + [entity])) &&
              (t !in m ==> r[t] == [entity])
    ensures t !in DrawComponentFunctions ==> r == m
  {
    if t in DrawComponentFunctions then m[t := AppendOnce(ListFor(m, t), entity)] else m
  }

  /** Registering entity under each type of ts in turn, as AddEntity's loop does. */
  function RegisterAll(m: map<ComponentType, seq<Entity>>, ts: seq<ComponentType>, entity: Entity): map<ComponentType, seq<Entity>>
  {
    if ts == [] then m else Registered(RegisterAll(m, ts[..|ts| - 1], entity), ts[|ts| - 1], entity)
  }

  /**
   * The per-type lists once entity is listed under the types ts, all at once:
   * every drawable type of ts has a list holding entity (appended at its end
   * when it was not there), every other list is as it was.
   */
  function WithEntity(m: map<ComponentType, seq<Entity>>, ts: seq<ComponentType>, entity: Entity): map<ComponentType, seq<Entity>>
  {
    map t | t in m.Keys + DrawComponentFunctions.Keys && (t in m || t in ts) ::
      if t in ts && t in DrawComponentFunctions then AppendOnce(ListFor(m, t), entity) else m[t]
  }

  /**
   * What WithEntity keeps and adds: a list for exactly the old types and the
   * drawable types of ts, the old lists of the other types untouched, the
   * entity in the list of each drawable type of ts, and no other entity added.
   */
  lemma WithEntityLists(m: map<ComponentType, seq<Entity>>, ts: seq<ComponentType>, entity: Entity)
    ensures var r := WithEntity(m, ts, entity);
            (forall t :: t in r <==> t in m || (t in ts && t in DrawComponentFunctions)) &&
            (forall t :: t in m && !(t in ts && t in DrawComponentFunctions) ==> r[t] == m[t]) &&
            (forall t :: t in ts && t in DrawComponentFunctions ==> entity in r[t]) &&
            (forall t, e :: t in r && e in r[t] ==> e in ListFor(m, t) || e == entity)
  {
  }

  /** Registering one type at a time ends in the same lists, whatever the order of the types. */
  lemma {:induction false} RegisterAllIsWithEntity(m: map<ComponentType, seq<Entity>>, ts: seq<ComponentType>, entity: Entity)
    ensures RegisterAll(m, ts, entity) == WithEntity(m, ts, entity)
    decreases |ts|
  {
    if ts == [] {
      assert WithEntity(m, ts, entity) == m;
    } else {
      var init := ts[..|ts| - 1];
      RegisterAllIsWithEntity(m, init, entity);
      assert ts == init + [ts[|ts| - 1]];
      RegisteredStep(m, init, ts[|ts| - 1], entity);
    }
  }

  /** Registering one more type after the types init gives the lists for init + [last]. */
  lemma RegisteredStep(m: map<ComponentType, seq<Entity>>, init: seq<ComponentType>, last: ComponentType, entity: Entity)
    ensures Registered(WithEntity(m, init, entity), last, entity) == WithEntity(m, init + [last], entity)
  {
    var a := Registered(WithEntity(m, init, entity), last, entity);
    var b := WithEntity(m, init + [last], entity);
    forall t
      ensures t in a <==> t in b
      ensures t in a ==> a[t] == b[t]
    {
      RegisteredStepAt(m, init, last, entity, t);
    }
    assert a == b;
  }

  /** RegisteredStep for the list of one type t. */
  lemma RegisteredStepAt(m: map<ComponentType, seq<Entity>>, init: seq<ComponentType>, last: ComponentType, entity: Entity, t: ComponentType)
    ensures var a, b := Registered(WithEntity(m, init, entity), last, entity), WithEntity(m, init + [last], entity);
            (t in a <==> t in b) && (t in a ==> a[t] == b[t])
  {
    var before := WithEntity(m, init, entity);
    var a, b := Registered(before, last, entity), WithEntity(m, init + [last], entity);
    assert t in init + [last] <==> t in init || t == last;
    if t == last && last in DrawComponentFunctions {
      // both lists end up as the old one with entity appended once
      assert a[t] == AppendOnce(ListFor(before, t), entity);
      if t in init {
        assert before[t] == AppendOnce(ListFor(m, t), entity);
      } else {
        assert ListFor(before, t) == ListFor(m, t);
      }
    } else {
      assert t in a <==> t in before;
      assert t in a ==> a[t] == before[t];
    }
  }

  predicate NoDuplicates<T(==)>(s: seq<T>)
  {
    forall i, j :: 0 <= i < j < |s| ==> s[i] != s[j]
  }

  /** The index of the first occurrence of e in s. */
  function IndexOf<T(==)>(s: seq<T>, e: T): (i: nat)
    requires e in s
    ensures i < |s| && s[i] == e && forall k :: 0 <= k < i ==> s[k] != e
  {
    if s[0] == e then 0 else 1 + IndexOf(s[1..], e)
  }

  /**
   * DAVA::FindAndRemoveExchangingWithLast: the first occurrence of e is
   * overwritten by the last element and the last slot is dropped.
   */
  function SwapRemove<T(==)>(s: seq<T>, e: T): seq<T>
  {
    if e in s then
      var i := IndexOf(s, e);
      s[i := s[|s| - 1]][..|s| - 1]
    else s
  }

  /** Swap-removal takes away exactly one occurrence of e, if there is one, and keeps everything else. */
  lemma SwapRemoveContents<T>(s: seq<T>, e: T)
    ensures e in s ==> multiset(SwapRemove(s, e)) == multiset(s) - multiset{e}
    ensures e !in s ==> SwapRemove(s, e) == s
  {
    if e in s {
      var i := IndexOf(s, e);
      var n := |s| - 1;
      var t := s[i := s[n]];
      assert multiset(t) == multiset(s) - multiset{e} + multiset{s[n]};
      assert SwapRemove(s, e) == t[..n];
      assert t == t[..n] + [t[n]];
      assert multiset(t) == multiset(t[..n]) + multiset{t[n]};
      assert t[n] == s[n];
      var kept, expected := multiset(t[..n]), multiset(s) - multiset{e};
      assert kept + multiset{s[n]} == expected + multiset{s[n]};
      forall y
        ensures kept[y] == expected[y]
      {
        assert (kept + multiset{s[n]})[y] == (expected + multiset{s[n]})[y];
      }
      assert kept == expected;
    }
  }

  /** On a list without duplicates, swap-removal removes e completely and keeps the list duplicate-free. */
  lemma SwapRemoveNoDuplicates<T>(s: seq<T>, e: T)
    requires NoDuplicates(s)
    ensures NoDuplicates(SwapRemove(s, e))
    ensures e !in SwapRemove(s, e)
    ensures forall x :: x in s && x != e ==> x in SwapRemove(s, e)
  {
    SwapRemoveContents(s, e);
    var r := SwapRemove(s, e);
    if e in s {
      forall x | x in s && x != e
        ensures x in r
      {
        assert multiset(s)[x] > 0;
        assert multiset(r)[x] > 0;
      }
      assert multiset(s)[e] == 1 by {
        var i := IndexOf(s, e);
        NoDuplicatesCountOne(s, i);
      }
      assert multiset(r)[e] == 0;
      forall i, j | 0 <= i < j < |r|
        ensures r[i] != r[j]
      {
        var n := |s| - 1;
        var k := IndexOf(s, e);
        assert r[i] == (if i == k then s[n] else s[i]);
        assert r[j] == (if j == k then s[n] else s[j]);
      }
    }
  }

  lemma {:induction false} NoDuplicatesCountOne<T>(s: seq<T>, i: nat)
    requires NoDuplicates(s) && i < |s|
    ensures multiset(s)[s[i]] == 1
  {
    if i == 0 {
      assert s == [s[0]] + s[1..];
      assert s[0] !in s[1..];
    } else {
      assert s == [s[0]] + s[1..];
      assert s[1..][i - 1] == s[i];
      NoDuplicatesCountOne(s[1..], i - 1);
    }
  }

  class DebugDrawSystem {
    var entities: seq<Entity>
    var entitiesComponentMap: map<ComponentType, seq<Entity>>
    const drawComponentFunctionsMap: map<ComponentType, DrawFunction>
    var objectType: int
    var objectTypeColor: Color

    /**
     * Only drawable types have a list, and no list holds an entity twice.
     */
    ghost predicate Valid()
      reads this
    {
      drawComponentFunctionsMap == DrawComponentFunctions &&
      (forall t :: t in entitiesComponentMap ==> t in drawComponentFunctionsMap) &&
      (forall t :: t in entitiesComponentMap ==> NoDuplicates(entitiesComponentMap[t]))
    }

    constructor ()
      ensures Valid()
      ensures entities == [] && entitiesComponentMap == map[]
      ensures drawComponentFunctionsMap.Keys == {SoundComponent, WindComponent, GeoDecalComponent, LightComponent}
    {
      entities := [];
      entitiesComponentMap := map[];
      drawComponentFunctionsMap := DrawComponentFunctions;
      objectType := ESOT_NONE;
      objectTypeColor := FallbackColor;
    }

    /** Records the requested object type and, unless it is ESOT_NONE, the colour for it. */
    method SetRequestedObjectType(t: int, colors: seq<Color>)
      requires -0x8000_0000 <= t < 0x8000_0000
      modifies this
      ensures objectType == t
      ensures t != ESOT_NONE ==> objectTypeColor == ObjectTypeColor(t, colors)
      ensures t == ESOT_NONE ==> objectTypeColor == old(objectTypeColor)
      ensures entities == old(entities) && entitiesComponentMap == old(entitiesComponentMap)
    {
      objectType := t;
      if ESOT_NONE != objectType {
        if ToUInt32(objectType) < ToUInt32(|colors|) {
          objectTypeColor := colors[ToUInt32(objectType)];
        } else {
          objectTypeColor := FallbackColor;
        }
      }
    }

    function GetRequestedObjectType(): (r: int)
      reads this
      ensures r == objectType
    {
      objectType
    }

    /**
     * Lists the entity under a drawable component type, once. Non-drawable
     * types are ignored.
     */
    method RegisterComponent(entity: Entity, component: ComponentType)
      requires Valid()
      modifies this
      ensures Valid()
      ensures entitiesComponentMap == old(Registered(entitiesComponentMap, component, entity))
      ensures entities == old(entities) && objectType == old(objectType)
    {
      var t := component;
      if t in drawComponentFunctionsMap {
        var list := if t in entitiesComponentMap then entitiesComponentMap[t] else [];
        var found := false;
        var i := 0;
        while i < |list|
          invariant 0 <= i <= |list|
          invariant found <==> entity in list[..i]
        {
          if list[i] == entity {
            found := true;
            break;
          }
          i := i + 1;
        }
        assert !found ==> list[..i] == list;
        if !found {
          list := list + [entity];
        }
        entitiesComponentMap := entitiesComponentMap[t := list];
      }
    }

    /**
     * Registers the entity under each of its components and tracks it: the
     * lists become WithEntity of the old ones, the same whatever order the
     * components are visited in.
     */
    method AddEntity(entity: Entity)
      requires Valid()
      modifies this
      ensures Valid()
      ensures entities == old(entities) + [entity]
      ensures entitiesComponentMap == WithEntity(old(entitiesComponentMap), entity.components, entity)
      ensures forall t :: t in entitiesComponentMap ==> t in old(entitiesComponentMap) || t in entity.components
      ensures forall t :: t in old(entitiesComponentMap) ==>
                (t in entitiesComponentMap && forall e :: e in old(entitiesComponentMap)[t] ==> e in entitiesComponentMap[t])
      ensures forall t :: t in entity.components && t in drawComponentFunctionsMap ==>
                t in entitiesComponentMap && entity in entitiesComponentMap[t]
      ensures forall t :: t in entitiesComponentMap ==>
                forall e :: e in entitiesComponentMap[t] ==>
                  e in (if t in old(entitiesComponentMap) then old(entitiesComponentMap)[t] else []) || e == entity
    {
      entities := entities + [entity];
      ghost var m0 := entitiesComponentMap;
      var i := 0;
      while i < |entity.components|
        invariant 0 <= i <= |entity.components|
        invariant Valid() && entities == old(entities) + [entity]
        invariant entitiesComponentMap == RegisterAll(m0, entity.components[..i], entity)
      {
        assert entity.components[..i + 1][..i] == entity.components[..i];
        RegisterComponent(entity, entity.components[i]);
        i := i + 1;
      }
      assert entity.components[..i] == entity.components;
      RegisterAllIsWithEntity(m0, entity.components, entity);
      WithEntityLists(m0, entity.components, entity);
    }

    /** The map after removing entity from every list; no list is dropped. */
    function WithoutEntity(entity: Entity): (r: map<ComponentType, seq<Entity>>)
      reads this
      ensures r.Keys == entitiesComponentMap.Keys
      ensures forall t :: t in r ==> r[t] == SwapRemove(entitiesComponentMap[t], entity)
    {
      map t | t in entitiesComponentMap :: SwapRemove(entitiesComponentMap[t], entity)
    }

    /** Stops tracking the entity and takes it off every per-type list. */
    method RemoveEntity(entity: Entity)
      requires Valid()
      modifies this
      ensures Valid()
      ensures entities == SwapRemove(old(entities), entity)
      ensures entitiesComponentMap == old(WithoutEntity(entity))
      ensures forall t :: t in entitiesComponentMap ==> entity !in entitiesComponentMap[t]
    {
      entities := SwapRemove(entities, entity);
      ghost var original := entitiesComponentMap;
      var keys := entitiesComponentMap.Keys;
      while keys != {}
        invariant keys <= original.Keys && entitiesComponentMap.Keys == original.Keys
        invariant entities == SwapRemove(old(entities), entity)
        invariant forall t :: t in original ==>
                    entitiesComponentMap[t] == if t in keys then original[t] else SwapRemove(original[t], entity)
        decreases keys
      {
        var t :| t in keys;
        entitiesComponentMap := entitiesComponentMap[t := SwapRemove(entitiesComponentMap[t], entity)];
        keys := keys - {t};
      }
      forall t | t in entitiesComponentMap
        ensures NoDuplicates(entitiesComponentMap[t]) && entity !in entitiesComponentMap[t]
      {
        SwapRemoveNoDuplicates(original[t], entity);
      }
    }

    /**
     * Takes the entity off the list of the component's type, unless the entity
     * still has another component of that type.
     */
    method UnregisterComponent(entity: Entity, component: ComponentType)
      requires Valid()
      modifies this
      ensures Valid()
      ensures component in old(entitiesComponentMap) && entity.GetComponentCount(component) <= 1 ==>
                entitiesComponentMap == old(entitiesComponentMap)[component := SwapRemove(old(entitiesComponentMap)[component], entity)] &&
                entity !in entitiesComponentMap[component]
      ensures !(component in old(entitiesComponentMap) && entity.GetComponentCount(component) <= 1) ==>
                entitiesComponentMap == old(entitiesComponentMap)
      ensures entities == old(entities)
    {
      var t := component;
      if t in entitiesComponentMap && entity.GetComponentCount(component) <= 1 {
        SwapRemoveNoDuplicates(entitiesComponentMap[t], entity);
        entitiesComponentMap := entitiesComponentMap[t := SwapRemove(entitiesComponentMap[t], entity)];
      }
    }

    /** The entities the drawing function is applied to, in order: the type's list, or none. */
    method DrawComponent(t: ComponentType) returns (drawn: seq<Entity>)
      ensures t in entitiesComponentMap ==> drawn == entitiesComponentMap[t]
      ensures t !in entitiesComponentMap ==> drawn == []
    {
      drawn := [];
      if t in entitiesComponentMap {
        var list := entitiesComponentMap[t];
        var i := 0;
        while i < |list|
          invariant 0 <= i <= |list|
          invariant drawn == list[..i]
        {
          drawn := drawn + [list[i]];
          i := i + 1;
        }
      }
    }
  }
}
