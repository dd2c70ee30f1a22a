/** The entity-component system: the process-wide component type registry, entities with a
    fixed slot array and presence bitset of components, and the handler that indexes entities
    by grid cell and updates them once per frame. A component's own `update()` is not visible,
    so every call of it is recorded by appending the component to a trace. */
module ECS {

  import opened Sequences
  import opened Grid

  /** Slots in every entity's component array and presence bitset. */
  const MaxComponents: nat := 32

  /** A component type, named. */
  type TypeName = string

  /** The two `getComponentTypeID` functions: the static counter `lastID` and, per component
      type, the static id it received on its first use. */
  class ComponentRegistry {
    var lastID: nat
    var ids: map<TypeName, nat>

    /** Every id handed out so far is below the counter, and no two types share one. */
    ghost predicate Valid()
      reads this
    {
      && (forall t :: t in ids ==> ids[t] < lastID)
      && (forall t, u :: t in ids && u in ids && t != u ==> ids[t] != ids[u])
    }

    constructor ()
      ensures Valid() && lastID == 0 && ids == map[]
    {
      lastID := 0;
      ids := map[];
    }

    /** The id `kind` has, or the one its first use will give it. */
    function IdOf(kind: TypeName): nat
      reads this
    {
      if kind in ids then ids[kind] else lastID
    }

    /** The id lookup of `kind` happened and returned `id`. */
    twostate predicate LookedUp(kind: TypeName, id: nat)
      reads this
    {
      && id == old(IdOf(kind))
      && ids == old(ids)[kind := id]
      && lastID == if kind in old(ids) then old(lastID) else old(lastID) + 1
    }

    /** The untyped `getComponentTypeID()`: returns the counter, then increments it. */
    method NextID() returns (id: nat)
      requires Valid()
      modifies this`lastID
      ensures Valid()
      ensures id == old(lastID) && lastID == old(lastID) + 1
    {
      id := lastID;
      lastID := lastID + 1;
    }

    /** `getComponentTypeID<T>()`: the id `kind` was given on its first use; the first use
        takes the next id from the counter. */
    method TypeID(kind: TypeName) returns (id: nat)
      requires Valid()
      modifies this
      ensures Valid()
      ensures LookedUp(kind, id)
      ensures old(kind in ids) ==> id == old(ids[kind]) && ids == old(ids) && lastID == old(lastID)
      ensures old(kind !in ids) ==> id == old(lastID) && forall t :: t in old(ids) ==> ids[t] != id
    {
      if kind in ids {
        id := ids[kind];
      } else {
        id := NextID();
        ids := ids[kind := id];
      }
    }
  }

  /** A component instance of type `kind`, with its back-reference to the owning entity. */
  class Component {
    const kind: TypeName
    var entity: Entity?

    constructor (kind: TypeName)
      ensures this.kind == kind
    {
      this.kind := kind;
    }
  }

  /** The slots, bits and component list of an entity agree with the registry's `ids`: a set
      bit `i` has its slot hold a component whose type has id `i`, and the type of every
      component ever added has an id whose bit is set. */
  ghost predicate TypedStores(slots: seq<Component?>, bits: seq<bool>, components: seq<Component>,
                              ids: map<TypeName, nat>)
  {
    && |slots| == MaxComponents && |bits| == MaxComponents
    && (forall i :: 0 <= i < MaxComponents && bits[i] ==>
          slots[i] != null && slots[i].kind in ids && ids[slots[i].kind] == i)
    && (forall c :: c in components ==>
          c.kind in ids && ids[c.kind] < MaxComponents && bits[ids[c.kind]])
  }

  /** The registry only ever adds ids, so agreeing with it stays true. */
  lemma TypedStoresGrow(slots: seq<Component?>, bits: seq<bool>, components: seq<Component>,
                        ids: map<TypeName, nat>, ids': map<TypeName, nat>)
    requires TypedStores(slots, bits, components, ids)
    requires forall t :: t in ids ==> t in ids' && ids'[t] == ids[t]
    ensures TypedStores(slots, bits, components, ids')
  {
  }

  /** Storing a component in slot and bit `id`, where `id` is the id its type has or now
      receives, keeps the stores in agreement with the grown registry. */
  lemma TypedStoresAdd(slots: seq<Component?>, bits: seq<bool>, components: seq<Component>,
                       ids: map<TypeName, nat>, c: Component, id: nat)
    requires TypedStores(slots, bits, components, ids) && id < MaxComponents
    requires c.kind in ids ==> ids[c.kind] == id
    requires c.kind !in ids ==> forall t :: t in ids ==> ids[t] != id
    ensures TypedStores(slots[id := c], bits[id := true], components + [c], ids[c.kind := id])
  {
    var ids' := ids[c.kind := id];
    TypedStoresGrow(slots, bits, components, ids, ids');
    var slots', bits' := slots[id := c], bits[id := true];
    forall i | 0 <= i < MaxComponents && bits'[i]
      ensures slots'[i] != null && slots'[i].kind in ids' && ids'[slots'[i].kind] == i
    {
      if i != id {
        assert slots[i] != null && slots[i].kind in ids && ids[slots[i].kind] == i;
      }
    }
  }

  class Entity {
    var name: string
    var tags: seq<string>
    /** Every component ever added, in the order they were added; drives `update`. */
    var components: seq<Component>
    const componentArray: array<Component?>
    const componentBitSet: array<bool>
    var entityHandler: EntityHandler?

    /** Both fixed-size stores have `MaxComponents` slots, and a set presence bit means its
        slot holds one of this entity's components. */
    ghost predicate Valid()
      reads this, componentArray, componentBitSet
    {
      && componentArray.Length == MaxComponents
      && componentBitSet.Length == MaxComponents
      && forall i :: 0 <= i < MaxComponents && componentBitSet[i] ==>
           componentArray[i] != null && componentArray[i] in components
    }

    /** The stores agree with the registry's ids (see `TypedStores`). */
    ghost predicate Typed(ids: map<TypeName, nat>)
      reads this, componentArray, componentBitSet
    {
      TypedStores(componentArray[..], componentBitSet[..], components, ids)
    }

    constructor (name: string)
      ensures Valid() && fresh(componentArray) && fresh(componentBitSet)
      ensures this.name == name && tags == [] && components == []
      ensures forall i :: 0 <= i < MaxComponents ==> !componentBitSet[i]
      ensures forall ids :: Typed(ids)
    {
      this.name := name;
      tags := [];
      components := [];
      componentArray := new Component?[MaxComponents];
      componentBitSet := new bool[MaxComponents](_ => false);
    }

    /** The unnamed entity: empty name, no tags, no components, every presence bit clear. */
    constructor Default()
      ensures Valid() && fresh(componentArray) && fresh(componentBitSet)
      ensures name == "" && tags == [] && components == []
      ensures forall i :: 0 <= i < MaxComponents ==> !componentBitSet[i]
      ensures forall ids :: Typed(ids)
    {
      name := "";
      tags := [];
      components := [];
      componentArray := new Component?[MaxComponents];
      componentBitSet := new bool[MaxComponents](_ => false);
    }

    /** Calls `update()` on every component, once each, in the order they were added. */
    method Update(trace: seq<Component>) returns (out: seq<Component>)
      ensures out == trace + components
    {
      out := trace;
      var i := 0;
      while i < |components|
        invariant 0 <= i <= |components|
        invariant out == trace + components[..i]
      {
        assert components[..i + 1] == components[..i] + [components[i]];
        out := out + [components[i]];
        i := i + 1;
      }
    }

    method AddTag(tag: string)
      modifies this`tags
      ensures tags == old(tags) + [tag]
    {
      tags := tags + [tag];
    }

    /** Erases the first tag equal to `tag`; says whether there was one. */
    method RemoveTag(tag: string) returns (removed: bool)
      modifies this`tags
      ensures removed == (tag in old(tags))
      ensures tags == RemoveFirst(old(tags), tag)
    {
      var i := 0;
      while i < |tags|
        invariant 0 <= i <= |tags| && tags == old(tags)
        invariant tag !in tags[..i]
      {
        if tags[i] == tag {
          RemoveFirstAt(tags, tag, i);
          tags := tags[..i] + tags[i + 1..];
          return true;
        }
        assert tags[..i + 1] == tags[..i] + [tags[i]];
        i := i + 1;
      }
      assert tags[..i] == tags;
      return false;
    }

    /** `hasComponent<T>()`: the presence bit of `T`'s id, which is set exactly when a
        component of type `T` was added to this entity. */
    method HasComponent(reg: ComponentRegistry, kind: TypeName) returns (has: bool)
      requires Valid() && reg.Valid() && Typed(reg.ids) && reg.IdOf(kind) < MaxComponents
      modifies reg
      ensures reg.Valid() && reg.LookedUp(kind, old(reg.IdOf(kind))) && Typed(reg.ids)
      ensures has == componentBitSet[old(reg.IdOf(kind))]
      ensures has <==> exists c :: c in components && c.kind == kind
    {
      ghost var before := reg.ids;
      var id := reg.TypeID(kind);
      TypedStoresGrow(componentArray[..], componentBitSet[..], components, before, reg.ids);
      has := componentBitSet[id];
      if has {
        var c := componentArray[id];
        assert c.kind == kind by {
          assert reg.ids[c.kind] == id == reg.ids[kind];
        }
        assert c in components;
      } else {
        forall c | c in components
          ensures c.kind != kind
        {
          assert componentBitSet[reg.ids[c.kind]];
        }
      }
    }

    /** `getComponent<T>()`: the slot of `T`'s id, which holds one of this entity's
        components of type `T` whenever the presence bit is set. */
    method GetComponent(reg: ComponentRegistry, kind: TypeName) returns (c: Component?)
      requires Valid() && reg.Valid() && Typed(reg.ids) && reg.IdOf(kind) < MaxComponents
      modifies reg
      ensures reg.Valid() && reg.LookedUp(kind, old(reg.IdOf(kind))) && Typed(reg.ids)
      ensures c == componentArray[old(reg.IdOf(kind))]
      ensures componentBitSet[old(reg.IdOf(kind))] ==> c != null && c in components && c.kind == kind
    {
      ghost var before := reg.ids;
      var id := reg.TypeID(kind);
      TypedStoresGrow(componentArray[..], componentBitSet[..], components, before, reg.ids);
      c := componentArray[id];
      if componentBitSet[id] {
        assert reg.ids[c.kind] == id == reg.ids[kind];
      }
    }

    /** `addComponent<T>()`: a new instance owned by this entity, appended to `components`
        and stored in slot and bit `T`'s id, overwriting an earlier instance of the same type
        in the slot while that one stays in `components`. */
    method AddComponent(reg: ComponentRegistry, kind: TypeName) returns (c: Component)
      requires Valid() && reg.Valid() && Typed(reg.ids) && reg.IdOf(kind) < MaxComponents
      modifies this`components, componentArray, componentBitSet, reg
      ensures Valid() && reg.Valid() && reg.LookedUp(kind, old(reg.IdOf(kind))) && Typed(reg.ids)
      ensures fresh(c) && c.kind == kind && c.entity == this
      ensures components == old(components) + [c]
      ensures componentArray[..] == old(componentArray[..])[old(reg.IdOf(kind)) := c]
      ensures componentBitSet[..] == old(componentBitSet[..])[old(reg.IdOf(kind)) := true]
    {
      c := new Component(kind);
      c.entity := this;
      components := components + [c];
      var id := reg.TypeID(kind);
      componentArray[id] := c;
      ghost var first := id;
      id := reg.TypeID(kind);
      assert id == first;
      componentBitSet[id] := true;
      TypedStoresAdd(old(componentArray[..]), old(componentBitSet[..]), old(components), old(reg.ids), c, id);
    }
  }

  /** Adding a component and then asking for its type finds it: the bit is set and the slot
      holds the very instance added, whose back-reference is the entity. */
  method AddedComponentIsFound(e: Entity, reg: ComponentRegistry, kind: TypeName)
    returns (c: Component, has: bool, got: Component?)
    requires e.Valid() && reg.Valid() && e.Typed(reg.ids) && reg.IdOf(kind) < MaxComponents
    modifies e, e.componentArray, e.componentBitSet, reg
    ensures has && got == c && c.entity == e && c in e.components
  {
    c := e.AddComponent(reg, kind);
    has := e.HasComponent(reg, kind);
    got := e.GetComponent(reg, kind);
  }

  /** Adding a second component of the same type leaves the first one in `components`: the
      slot holds the new instance, and `update()` still reaches both, the older one first. */
  method ReAddedComponentStillUpdated(e: Entity, reg: ComponentRegistry, kind: TypeName)
    returns (first: Component, second: Component, got: Component?, calls: seq<Component>)
    requires e.Valid() && reg.Valid() && e.Typed(reg.ids) && reg.IdOf(kind) < MaxComponents
    modifies e, e.componentArray, e.componentBitSet, reg
    ensures first != second && got == second
    ensures calls == old(e.components) + [first, second]
  {
    ghost var before := e.components;
    first := e.AddComponent(reg, kind);
    second := e.AddComponent(reg, kind);
    assert e.components == before + [first, second] by {
      assert (before + [first]) + [second] == before + [first, second];
    }
    got := e.GetComponent(reg, kind);
    calls := e.Update([]);
  }

  /** The inner loop of the handler's update: `update()` on every entity of one cell, front
      to back, each call recorded by appending the entity. */
  method UpdateCell(cell: seq<Entity>, calls: seq<Entity>) returns (out: seq<Entity>)
    ensures out == calls + cell
  {
    out := calls;
    var j := 0;
    while j < |cell|
      invariant 0 <= j <= |cell|
      invariant out == calls + cell[..j]
    {
      assert cell[..j + 1] == cell[..j] + [cell[j]];
      out := out + [cell[j]];
      j := j + 1;
    }
    assert cell[..j] == cell;
  }

  /** One step of the sweep: the smallest cell left comes next, and its entities follow those
      of the cells already swept. */
  lemma SweepStep(m: map<Pos, seq<Entity>>, done: seq<Pos>, remaining: set<Pos>, k: Pos)
    requires remaining <= m.Keys && IsLeast(k, remaining)
    ensures done + SortedKeys(remaining) == (done + [k]) + SortedKeys(remaining - {k})
    ensures Visits(m, done + [k]) == Visits(m, done) + m[k]
  {
    assert Visits(m, [k]) == m[k];
    VisitsAppend(m, done, [k]);
    SortedKeysStep(done, remaining, k);
  }

  /** The spatial index: for every grid cell, the entities standing on it, in the order they
      were added there. */
  class EntityHandler {
    var entityPositions: map<Pos, seq<Entity>>

    constructor ()
      ensures entityPositions == map[]
    {
      entityPositions := map[];
    }

    /** Calls `update()` on every entity of every cell, cells in ascending `(x, y)` order and
        each cell's entities front to back; an entity listed twice is updated twice. */
    method Update(calls: seq<Entity>) returns (out: seq<Entity>)
      ensures out == calls + Sweep(entityPositions)
    {
      out := calls;
      var m := entityPositions;
      var remaining := m.Keys;
      ghost var order := SortedKeys(m.Keys);
      ghost var done: seq<Pos> := [];
      while remaining != {}
        invariant remaining <= m.Keys
        invariant order == done + SortedKeys(remaining)
        invariant out == calls + Visits(m, done)
        decreases remaining
      {
        LeastExists(remaining);
        var k :| IsLeast(k, remaining);
        out := UpdateCell(m[k], out);
        SweepStep(m, done, remaining, k);
        done := done + [k];
        remaining := remaining - {k};
      }
      assert done == order;
    }

    /** `get_entity_positions`: the whole index, returned by value. */
    method GetEntityPositions() returns (positions: map<Pos, seq<Entity>>)
      ensures positions == entityPositions
    {
      positions := entityPositions;
    }

    /** Makes this the entity's handler and appends it to the list at `(x, y)`. */
    method AddEntity(e: Entity, x: int, y: int)
      modifies this, e`entityHandler
      ensures e.entityHandler == this
      ensures entityPositions == Appended(old(entityPositions), (x, y), e)
    {
      e.entityHandler := this;
      var cell := if (x, y) in entityPositions then entityPositions[(x, y)] else [];
      entityPositions := entityPositions[(x, y) := cell + [e]];
    }

    /** Erases the first `e` at `(x, y)` and says whether there was one; the lookup creates an
        empty list at `(x, y)` when the cell had none. */
    method RemoveEntity(e: Entity, x: int, y: int) returns (removed: bool)
      modifies this
      ensures removed == (e in Cell(old(entityPositions), (x, y)))
      ensures entityPositions == Removed(old(entityPositions), (x, y), e)
    {
      if (x, y) !in entityPositions {
        entityPositions := entityPositions[(x, y) := []];
      }
      ghost var looked := entityPositions;
      var cell := entityPositions[(x, y)];
      var i := 0;
      while i < |cell|
        invariant entityPositions == looked
        invariant 0 <= i <= |cell|
        invariant e !in cell[..i]
      {
        if cell[i] == e {
          RemoveFirstAt(cell, e, i);
          entityPositions := entityPositions[(x, y) := cell[..i] + cell[i + 1..]];
          assert entityPositions == old(entityPositions)[(x, y) := RemoveFirst(cell, e)];
          return true;
        }
        assert cell[..i + 1] == cell[..i] + [cell[i]];
        i := i + 1;
      }
      assert cell[..i] == cell;
      assert RemoveFirst(cell, e) == cell;
      return false;
    }
  }
}
