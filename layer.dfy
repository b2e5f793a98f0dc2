/**
 * The layer registry of `Layer`: two static tables, name to id and id to name,
 * and the bit masks built from layer ids.
 *
 * Each `assert` of the source is followed by code that a release build runs;
 * the model computes that release value and reports, beside it, whether the
 * asserted condition held (`Checked.holds`).
 */
module Layer {

  /** Most layers `CreateLayer` admits without its assert firing. */
  const MaxLayers: nat := 32

  /** `uint32_t`. */
  type u32 = x: int | 0 <= x < 0x1_0000_0000

  /** A release-build value together with whether the guarding assert held. */
  datatype Checked<T> = Checked(value: T, holds: bool)

  /** A mask together with whether every assert on the way held. */
  datatype CheckedMask = CheckedMask(mask: bv32, holds: bool)

  /** `Layer::LayerTable` and `Layer::LayerNameTable`. */
  datatype Tables = Tables(layerTable: map<string, u32>, layerNameTable: map<u32, string>)

  /** The static tables before any layer is created. */
  function Empty(): Tables
  {
    Tables(map[], map[])
  }

  /** Every registered id can be shifted: `1 << id` is defined for it. */
  predicate Shiftable(t: Tables)
  {
    forall name | name in t.layerTable :: t.layerTable[name] < 32
  }

  /** `1 << id`: the mask of the layer with id `id`. */
  function Mask(id: u32): (m: bv32)
    requires id < 32
    ensures m != 0
  {
    1 << id
  }

  /** `HasName`. */
  predicate HasName(t: Tables, name: string)
  {
    name in t.layerTable
  }

  /** `GetBitPosition`: the id recorded for `name`, or 0 after the assert. */
  function GetBitPosition(t: Tables, name: string): (r: Checked<u32>)
    ensures r.holds <==> HasName(t, name)
  {
    if name in t.layerTable then Checked(t.layerTable[name], true) else Checked(0, false)
  }

  /** `NameToLayer`: checks `HasName` first, then asks `GetBitPosition`. */
  function NameToLayer(t: Tables, name: string): (r: Checked<u32>)
    ensures r.holds <==> HasName(t, name)
  {
    if !HasName(t, name) then Checked(0, false) else GetBitPosition(t, name)
  }

  /** `LayerToName`: the name recorded for `id`, or "Unknown Layer" after the assert. */
  function LayerToName(t: Tables, id: u32): (r: Checked<string>)
    ensures r.holds <==> id in t.layerNameTable
  {
    if id in t.layerNameTable then Checked(t.layerNameTable[id], true) else Checked("Unknown Layer", false)
  }

  /** `GetLayerMask`: the mask of the layer `GetBitPosition` reports. */
  function GetLayerMask(t: Tables, name: string): (r: CheckedMask)
    requires Shiftable(t)
    ensures r.holds <==> HasName(t, name)
  {
    var position := GetBitPosition(t, name);
    CheckedMask(Mask(position.value), position.holds)
  }

  /** What `GetLayerMasks` computes: the OR of the masks of the names, every assert held. */
  function MasksOf(t: Tables, names: seq<string>): (r: CheckedMask)
    requires Shiftable(t)
    ensures r.holds <==> forall i | 0 <= i < |names| :: HasName(t, names[i])
  {
    if names == [] then CheckedMask(0, true)
    else
      var init := MasksOf(t, names[..|names| - 1]);
      var last := GetLayerMask(t, names[|names| - 1]);
      CheckedMask(init.mask | last.mask, init.holds && last.holds)
  }

  /** `GetLayerMasks`: accumulates `mask |= GetLayerMask(name)` over the list. */
  method GetLayerMasks(t: Tables, names: seq<string>) returns (mask: bv32, holds: bool)
    requires Shiftable(t)
    ensures mask == MasksOf(t, names).mask && holds == MasksOf(t, names).holds
  {
    mask, holds := 0, true;
    var i := 0;
    while i < |names|
      invariant 0 <= i <= |names|
      invariant mask == MasksOf(t, names[..i]).mask
      invariant holds == MasksOf(t, names[..i]).holds
    {
      var layer := GetLayerMask(t, names[i]);
      MasksOfSnoc(t, names, i);
      mask := mask | layer.mask;
      holds := holds && layer.holds;
      i := i + 1;
    }
    assert names[..i] == names;
  }

  lemma MasksOfSnoc(t: Tables, names: seq<string>, i: nat)
    requires Shiftable(t) && i < |names|
    ensures MasksOf(t, names[..i + 1]).mask == MasksOf(t, names[..i]).mask | GetLayerMask(t, names[i]).mask
    ensures MasksOf(t, names[..i + 1]).holds == (MasksOf(t, names[..i]).holds && GetLayerMask(t, names[i]).holds)
  {
    assert names[..i + 1][..i] == names[..i];
  }

  /** The effect of `CreateLayer` on the tables and its return value. */
  datatype Creation = Creation(tables: Tables, value: u32, holds: bool)

  /** `CreateLayer(name, id)`: a known name changes nothing and gives back its stored
      id; a new name is recorded both ways and gives back `1 << id`. The assert fires
      when 32 names are already registered, and the release build records it anyway. */
  function Create(t: Tables, name: string, id: u32): (r: Creation)
    requires name in t.layerTable || id < 32
  {
    if name in t.layerTable then Creation(t, t.layerTable[name], true)
    else
      Creation(Tables(t.layerTable[name := id], t.layerNameTable[id := name]),
               Mask(id) as int, |t.layerTable| < MaxLayers)
  }

  /** Creating a layer under a registered name leaves both tables alone and returns
      the stored id. */
  lemma CreateKnownChangesNothing(t: Tables, name: string, id: u32)
    requires name in t.layerTable
    ensures Create(t, name, id).tables == t
    ensures Create(t, name, id).value == NameToLayer(t, name).value
  {
  }

  /** After creating a new layer, the name is known, maps to the id and back, the
      shifting invariant still holds, and every other name keeps its id. The assert
      holds exactly when fewer than 32 names were registered. */
  lemma {:induction false} CreateNewRegisters(t: Tables, name: string, id: u32)
    requires Shiftable(t) && name !in t.layerTable && id < 32
    ensures var c := Create(t, name, id);
      && Shiftable(c.tables)
      && HasName(c.tables, name)
      && NameToLayer(c.tables, name) == Checked(id, true)
      && LayerToName(c.tables, id) == Checked(name, true)
      && GetLayerMask(c.tables, name) == CheckedMask(Mask(id), true) && c.value == Mask(id) as int
      && (c.holds <==> |t.layerTable| < MaxLayers)
      && (forall other | other != name :: NameToLayer(c.tables, other) == NameToLayer(t, other))
  {
    var c := Create(t, name, id);
    assert c.tables == Tables(t.layerTable[name := id], t.layerNameTable[id := name]);
    forall other | other in c.tables.layerTable ensures c.tables.layerTable[other] < 32 {
      if other != name {
        assert other in t.layerTable;
      }
    }
  }

  /** Two names created under the same id: the second takes over the id's name, so
      `LayerToName(NameToLayer(first))` no longer gives back the first name. */
  lemma SharedIdShadowsName()
    ensures var t1 := Create(Empty(), "Player", 3).tables;
      var t2 := Create(t1, "Enemy", 3).tables;
      && NameToLayer(t2, "Player") == Checked(3, true)
      && LayerToName(t2, NameToLayer(t2, "Player").value) == Checked("Enemy", true)
  {
    var t1 := Create(Empty(), "Player", 3).tables;
    assert t1 == Tables(map["Player" := 3], map[3 := "Player"]);
    assert "Enemy" != "Player" by { assert "Enemy"[0] != "Player"[0]; }
    var t2 := Create(t1, "Enemy", 3).tables;
    assert t2 == Tables(map["Player" := 3, "Enemy" := 3], map[3 := "Enemy"]);
  }

  /** An unknown name gives id 0, hence mask 1 (the mask of layer 0), after the
      assert; an unknown id gives the name "Unknown Layer". */
  lemma UnknownDefaults(t: Tables, name: string, id: u32)
    requires Shiftable(t) && name !in t.layerTable && id !in t.layerNameTable
    ensures NameToLayer(t, name) == Checked(0, false)
    ensures GetLayerMask(t, name) == CheckedMask(1, false)
    ensures LayerToName(t, id) == Checked("Unknown Layer", false)
  {
  }

  /** A layer's mask is a single bit, and distinct layers have disjoint masks. */
  lemma MasksDisjoint(i: u32, j: u32)
    requires i < 32 && j < 32 && i != j
    ensures Mask(i) & Mask(j) == 0
    ensures Mask(i) & (Mask(i) - 1) == 0
  {
  }

  /** A mask already covering `name` absorbs it. */
  lemma {:induction false} MaskAbsorbed(t: Tables, name: string, names: seq<string>)
    requires Shiftable(t) && name in names
    ensures MasksOf(t, names).mask | GetLayerMask(t, name).mask == MasksOf(t, names).mask
  {
    var m := |names| - 1;
    if names[m] != name {
      assert name in names[..m] by {
        var k :| 0 <= k < |names| && names[k] == name;
        assert names[..m][k] == name;
      }
      MaskAbsorbed(t, name, names[..m]);
    }
  }

  lemma AllInFront(a: seq<string>, front: seq<string>, b: seq<string>)
    requires a != [] && front == a[..|a| - 1]
    requires forall i | 0 <= i < |a| :: a[i] in b
    ensures forall i | 0 <= i < |front| :: front[i] in b
  {
    forall i | 0 <= i < |front| ensures front[i] in b {
      assert front[i] == a[i];
    }
  }

  /** When every name of `a` occurs in `b`, the masks of `b` cover those of `a`. */
  lemma {:induction false} MasksCovered(t: Tables, a: seq<string>, b: seq<string>)
    requires Shiftable(t)
    requires forall i | 0 <= i < |a| :: a[i] in b
    ensures MasksOf(t, a).mask | MasksOf(t, b).mask == MasksOf(t, b).mask
  {
    if a != [] {
      var m := |a| - 1;
      AllInFront(a, a[..m], b);
      MasksCovered(t, a[..m], b);
      MaskAbsorbed(t, a[m], b);
    }
  }

  /** `GetLayerMasks` depends only on the set of names: neither their order nor
      repetitions change the mask. */
  lemma SameNamesSameMask(t: Tables, a: seq<string>, b: seq<string>)
    requires Shiftable(t)
    requires forall i | 0 <= i < |a| :: a[i] in b
    requires forall i | 0 <= i < |b| :: b[i] in a
    ensures MasksOf(t, a) == MasksOf(t, b)
  {
    MasksCovered(t, a, b);
    MasksCovered(t, b, a);
    assert MasksOf(t, a).holds == MasksOf(t, b).holds by {
      if MasksOf(t, b).holds {
        forall i | 0 <= i < |a| ensures HasName(t, a[i]) {
          var k :| 0 <= k < |b| && b[k] == a[i];
        }
      }
      if MasksOf(t, a).holds {
        forall i | 0 <= i < |b| ensures HasName(t, b[i]) {
          var k :| 0 <= k < |a| && a[k] == b[i];
        }
      }
    }
  }

  /** `CreateLayer` returns a mask only for a new name: created twice, the same layer
      gives back `1 << 3 == 8` the first time and its id 3 the second time. */
  lemma RepeatedCreateReturnsId()
    ensures var first := Create(Empty(), "Player", 3);
      var second := Create(first.tables, "Player", 3);
      first.value == 8 && second.value == 3
  {
  }

  /** `CreateLayer` as its comment describes it: the mask of the layer in both cases. */
  function CreateMask(t: Tables, name: string, id: u32): (r: Creation)
    requires Shiftable(t)
    requires name in t.layerTable || id < 32
  {
    var c := Create(t, name, id);
    if name in t.layerTable then c.(value := Mask(t.layerTable[name]) as int) else c
  }

  /** The corrected `CreateLayer` always gives back the registered layer's mask. */
  lemma CreateMaskIsLayerMask(t: Tables, name: string, id: u32)
    requires Shiftable(t)
    requires name in t.layerTable || id < 32
    ensures Shiftable(CreateMask(t, name, id).tables)
    ensures CreateMask(t, name, id).value == GetLayerMask(CreateMask(t, name, id).tables, name).mask as int
  {
    if name !in t.layerTable {
      CreateNewRegisters(t, name, id);
    }
  }

  /** The static tables of `Layer`, updated in place by `CreateLayer`. */
  class Registry {
    var tables: Tables

    /** The static definitions in `Layer.cpp`: both tables start empty. */
    constructor ()
      ensures tables == Empty()
    {
      tables := Empty();
    }

    /** `CreateLayer`: records a new name both ways and returns `1 << id`; a known name
        is returned its stored id. `holds` is false when the assert fires. */
    method CreateLayer(name: string, id: u32) returns (value: u32, holds: bool)
      requires name in tables.layerTable || id < 32
      modifies this
      ensures Creation(tables, value, holds) == Create(old(tables), name, id)
    {
      if name in tables.layerTable {
        return tables.layerTable[name], true;
      }
      var newPosition := |tables.layerTable|;
      holds := newPosition < 32;
      tables := tables.(layerNameTable := tables.layerNameTable[id := name]);
      tables := tables.(layerTable := tables.layerTable[name := id]);
      value := Mask(id) as int;
    }
  }
}
