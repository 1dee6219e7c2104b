/**
 * The data flow of the advanced mask renderer
 * (src/components/3Drendering/AdvancedMask3DRenderer.jsx): the mask input
 * is normalised to a plain array and optionally smoothed, earlier mask
 * geometry is removed from the scene, and new geometry is built in the
 * requested style, with the contour extrusion falling back to voxels
 * when it yields nothing.
 *
 * The Three.js scene is a list of tagged objects; materials, lights,
 * camera and render loop are not modelled.
 */
module MaskRenderer {
  import opened Options
  import opened MaskGrid
  import opened Smoothing
  import opened Voxels
  import opened HeightField
  import Extrusion

  /** The `maskData` prop, by the branch of the normalisation it takes. */
  datatype MaskInput =
    | Absent                          // null, undefined or another falsy value
    | Base64(text: string)            // a string
    | TypedArray(values: seq<real>)   // a Float32Array or Uint8Array
    | PlainArray(values: seq<real>)   // an Array
    | OtherValue                      // any other truthy value

  /** The outcome of one run of the processing effect. */
  datatype Processed =
    | Unchanged               // the effect returned early; the state keeps its value
    | Cleared                 // an error was caught; the state is set to null
    | Data(values: seq<real>) // the state is set to this array

  /** `!maskData`: the empty string is falsy too. */
  predicate IsFalsy(input: MaskInput) {
    input.Absent? || (input.Base64? && input.text == "")
  }

  /**
   * The array the normalisation chain (before smoothing) produces, when it
   * does not throw: the decoded image for a string, a copy for a typed
   * array, the array itself for an array, width * height zeros otherwise.
   */
  function Normalized(input: MaskInput, width: nat, height: nat, decodeMask: string -> Option<seq<real>>): Option<seq<real>>
  {
    match input
    case Absent => None
    case Base64(text) => decodeMask(text)
    case TypedArray(values) => Some(values)
    case PlainArray(values) => Some(values)
    case OtherValue => Some(seq(width * height, _ => 0.0))
  }

  /** The normalised data is long enough for `smoothMask` to stay inside it. */
  predicate SmoothingFits(input: MaskInput, width: nat, height: nat) {
    (input.TypedArray? || input.PlainArray?) ==> |input.values| >= width * height
  }

  /**
   * `processMask` with the early return in front of it. `decodeMask`
   * stands for `base64ToMaskData`, whose image decoding is browser code;
   * it yields width * height values or fails (None), and a failure is
   * caught and clears the state.
   */
  method ProcessMask(input: MaskInput, width: nat, height: nat, smoothing: bool, smoothingKernel: int,
                     decodeMask: string -> Option<seq<real>>) returns (result: Processed)
    requires forall s :: decodeMask(s).Some? ==> |decodeMask(s).value| == width * height
    requires smoothing ==> smoothingKernel >= 0 && SmoothingFits(input, width, height)
    ensures IsFalsy(input) <==> result == Unchanged
    ensures result == Cleared <==> input.Base64? && input.text != "" && decodeMask(input.text).None?
    ensures result.Data? ==> Normalized(input, width, height, decodeMask).Some?
    ensures result.Data? && !smoothing ==> result.values == Normalized(input, width, height, decodeMask).value
    ensures result.Data? && smoothing ==>
      var raw := Normalized(input, width, height, decodeMask).value;
      |result.values| == |raw| &&
      forall p :: InBounds(p, width, height) ==>
        result.values[CellIndex(p, width, height)] == Mean(raw, width, height, p, smoothingKernel / 2)
    ensures input.OtherValue? && !smoothing ==> result == Data(seq(width * height, _ => 0.0))
  {
    if IsFalsy(input) {
      return Unchanged;
    }
    var processed: seq<real>;
    match input {
      case Base64(text) =>
        var decoded := decodeMask(text);
        if decoded.None? {
          return Cleared;
        }
        processed := decoded.value;
      case TypedArray(values) =>
        processed := values;
      case PlainArray(values) =>
        processed := values;
      case OtherValue =>
        processed := seq(width * height, _ => 0.0);
    }
    if smoothing {
      processed := SmoothMask(processed, width, height, smoothingKernel);
    }
    return Data(processed);
  }

  /** What a scene child carries that the model tracks. */
  datatype Payload =
    | SurfaceMesh(mesh: Extrusion.Mesh)                 // extruded contours
    | VoxelMesh(position: Vertex)                       // one box per voxel
    | InstancedVoxels(count: nat, positions: seq<Vertex>)
    | HeightMesh(grid: GridMesh)
    | OtherContent                                      // lights and anything else

  /** A child of the scene: its identity, `type`, `userData.isMaskGeometry` and payload. */
  datatype SceneObject = SceneObject(id: nat, kind: string, isMaskGeometry: bool, payload: Payload)

  predicate DistinctIds(s: seq<SceneObject>) {
    forall i, j :: 0 <= i < j < |s| ==> s[i].id != s[j].id
  }

  /** `child.type === 'Mesh' && child.userData.isMaskGeometry`. */
  predicate IsClearable(c: SceneObject) {
    c.kind == "Mesh" && c.isMaskGeometry
  }

  /** `scene.children.filter(...)`: the children the regeneration removes. */
  function Clearable(s: seq<SceneObject>): seq<SceneObject> {
    if |s| == 0 then [] else (if IsClearable(s[0]) then [s[0]] else []) + Clearable(s[1..])
  }

  /** The children that survive the clearing, in their order. */
  function Retained(s: seq<SceneObject>): seq<SceneObject> {
    if |s| == 0 then [] else (if IsClearable(s[0]) then [] else [s[0]]) + Retained(s[1..])
  }

  /** `Array.prototype.indexOf` + `splice(index, 1)`: the first equal child goes. */
  function RemoveFirst(s: seq<SceneObject>, x: SceneObject): seq<SceneObject> {
    if |s| == 0 then [] else if s[0] == x then s[1..] else [s[0]] + RemoveFirst(s[1..], x)
  }

  /** The children of s not listed in removed, in their order. */
  function Keep(s: seq<SceneObject>, removed: seq<SceneObject>): seq<SceneObject> {
    if |s| == 0 then [] else (if s[0] in removed then [] else [s[0]]) + Keep(s[1..], removed)
  }

  /** A Three.js scene: its children and the next free object identity. */
  class Scene {
    var children: seq<SceneObject>
    var nextId: nat

    ghost predicate Valid()
      reads this
    {
      DistinctIds(children) && forall i :: 0 <= i < |children| ==> children[i].id < nextId
    }

    constructor()
      ensures Valid() && children == []
    {
      children := [];
      nextId := 0;
    }

    /** `scene.add(object)` for a newly created object. */
    method Add(kind: string, isMaskGeometry: bool, payload: Payload)
      requires Valid()
      modifies this
      ensures Valid()
      ensures children == old(children) + [SceneObject(old(nextId), kind, isMaskGeometry, payload)]
      ensures nextId == old(nextId) + 1
    {
      children := children + [SceneObject(nextId, kind, isMaskGeometry, payload)];
      nextId := nextId + 1;
    }

    /** `scene.remove(object)`. */
    method Remove(x: SceneObject)
      requires Valid()
      modifies this
      ensures Valid()
      ensures children == RemoveFirst(old(children), x)
      ensures nextId == old(nextId)
    {
      var i := 0;
      while i < |children| && children[i] != x
        invariant 0 <= i <= |children|
        invariant x !in children[..i]
      {
        i := i + 1;
      }
      RemoveAt(children, x, i);
      if i < |children| {
        SpliceKeepsIds(children, i, nextId, children[..i] + children[i + 1..]);
        children := children[..i] + children[i + 1..];
      }
    }
  }

  /** Dropping one child keeps the identities distinct and below the bound. */
  lemma SpliceKeepsIds(s: seq<SceneObject>, i: nat, bound: nat, t: seq<SceneObject>)
    requires i < |s| && t == s[..i] + s[i + 1..]
    requires DistinctIds(s) && forall k :: 0 <= k < |s| ==> s[k].id < bound
    ensures DistinctIds(t) && forall k :: 0 <= k < |t| ==> t[k].id < bound
  {
    assert forall k :: 0 <= k < i ==> t[k] == s[k];
    assert forall k :: i <= k < |t| ==> t[k] == s[k + 1];
  }

  lemma {:induction false} RemoveAt(s: seq<SceneObject>, x: SceneObject, i: int)
    requires 0 <= i <= |s| && x !in s[..i] && (i < |s| ==> s[i] == x)
    ensures RemoveFirst(s, x) == if i < |s| then s[..i] + s[i + 1..] else s
  {
    if |s| > 0 && s[0] != x {
      assert s[..i][0] == s[0];
      assert s[1..][..i - 1] == s[..i][1..];
      RemoveAt(s[1..], x, i - 1);
      if i < |s| {
        assert s[..i] + s[i + 1..] == [s[0]] + (s[1..][..i - 1] + s[1..][i..]);
      }
    }
  }

  lemma {:induction false} ClearableMembership(s: seq<SceneObject>, c: SceneObject)
    ensures c in Clearable(s) <==> c in s && IsClearable(c)
  {
    if |s| > 0 {
      ClearableMembership(s[1..], c);
      assert s == [s[0]] + s[1..];
    }
  }

  /** Removal never repeats an object: the filtered list inherits distinct identities. */
  lemma {:induction false} ClearableDistinct(s: seq<SceneObject>)
    requires DistinctIds(s)
    ensures DistinctIds(Clearable(s))
  {
    if |s| > 0 {
      assert DistinctIds(s[1..]) by {
        forall i, j | 0 <= i < j < |s[1..]| ensures s[1..][i].id != s[1..][j].id {
          assert s[1..][i] == s[i + 1] && s[1..][j] == s[j + 1];
        }
      }
      ClearableDistinct(s[1..]);
      var rest := Clearable(s[1..]);
      forall k | 0 <= k < |rest| ensures rest[k].id != s[0].id {
        ClearableMembership(s[1..], rest[k]);
        var m :| 0 <= m < |s[1..]| && s[1..][m] == rest[k];
        assert s[m + 1] == rest[k];
      }
    }
  }

  lemma {:induction false} KeepUnlisted(s: seq<SceneObject>, removed: seq<SceneObject>, x: SceneObject)
    requires x !in s
    ensures Keep(s, removed + [x]) == Keep(s, removed)
  {
    if |s| > 0 {
      assert s[0] != x;
      KeepUnlisted(s[1..], removed, x);
    }
  }

  /** Removing the next listed object from what is left extends the list of removed objects. */
  lemma {:induction false} RemoveStep(s: seq<SceneObject>, removed: seq<SceneObject>, x: SceneObject)
    requires DistinctIds(s) && x in s && x !in removed
    ensures RemoveFirst(Keep(s, removed), x) == Keep(s, removed + [x])
  {
    if s[0] == x {
      assert x !in s[1..] by {
        forall m | 0 <= m < |s[1..]| ensures s[1..][m] != x {
          assert s[1..][m] == s[m + 1];
        }
      }
      KeepUnlisted(s[1..], removed, x);
    } else {
      assert x in s[1..];
      assert DistinctIds(s[1..]) by {
        forall i, j | 0 <= i < j < |s[1..]| ensures s[1..][i].id != s[1..][j].id {
          assert s[1..][i] == s[i + 1] && s[1..][j] == s[j + 1];
        }
      }
      RemoveStep(s[1..], removed, x);
      var rest := Keep(s[1..], removed);
      assert (s[0] in removed + [x]) == (s[0] in removed);
      if s[0] !in removed {
        assert ([s[0]] + rest)[1..] == rest;
      } else {
        assert [] + rest == rest;
      }
    }
  }

  lemma {:induction false} KeepClearable(s: seq<SceneObject>, removed: seq<SceneObject>)
    requires forall c :: c in s ==> (c in removed <==> IsClearable(c))
    ensures Keep(s, removed) == Retained(s)
  {
    if |s| > 0 {
      assert s[0] in s;
      KeepClearable(s[1..], removed);
    }
  }

  /** The retained children are exactly the children that are not clearable mask meshes, in order. */
  lemma {:induction false} RetainedMembership(s: seq<SceneObject>, c: SceneObject)
    ensures c in Retained(s) <==> c in s && !IsClearable(c)
  {
    if |s| > 0 {
      RetainedMembership(s[1..], c);
      assert s == [s[0]] + s[1..];
    }
  }

  /**
   * "Clear existing geometry": every child that is a mask `Mesh` is
   * removed, one `scene.remove` at a time; every other child stays, in
   * its place.
   */
  method ClearMaskGeometry(scene: Scene)
    requires scene.Valid()
    modifies scene
    ensures scene.Valid()
    ensures scene.children == Retained(old(scene.children))
    ensures scene.nextId == old(scene.nextId)
  {
    ghost var original := scene.children;
    var existing := Clearable(scene.children);
    KeepNone(original);
    var i := 0;
    while i < |existing|
      invariant 0 <= i <= |existing|
      invariant scene.Valid() && scene.nextId == old(scene.nextId)
      invariant scene.children == Keep(original, existing[..i])
    {
      ClearStep(original, i);
      scene.Remove(existing[i]);
      i := i + 1;
    }
    ClearDone(original);
  }

  /** One `scene.remove` of the clearing loop takes the next listed object out. */
  lemma ClearStep(original: seq<SceneObject>, i: int)
    requires DistinctIds(original) && 0 <= i < |Clearable(original)|
    ensures var existing := Clearable(original);
      RemoveFirst(Keep(original, existing[..i]), existing[i]) == Keep(original, existing[..i + 1])
  {
    var existing := Clearable(original);
    ClearableDistinct(original);
    ClearableMembership(original, existing[i]);
    assert existing[i] !in existing[..i] by {
      forall m | 0 <= m < i ensures existing[..i][m] != existing[i] {
        assert existing[..i][m].id == existing[m].id != existing[i].id;
      }
    }
    RemoveStep(original, existing[..i], existing[i]);
    PrefixStep(existing, i);
  }

  lemma PrefixStep(s: seq<SceneObject>, i: int)
    requires 0 <= i < |s|
    ensures s[..i + 1] == s[..i] + [s[i]]
  {
  }

  /** Once every listed object is gone, the retained children are left. */
  lemma ClearDone(original: seq<SceneObject>)
    ensures Keep(original, Clearable(original)[..|Clearable(original)|]) == Retained(original)
  {
    var existing := Clearable(original);
    forall c | c in original ensures c in existing <==> IsClearable(c) {
      ClearableMembership(original, c);
    }
    assert existing[..|existing|] == existing;
    KeepClearable(original, existing);
  }

  lemma {:induction false} KeepNone(s: seq<SceneObject>)
    ensures Keep(s, []) == s
  {
    if |s| > 0 {
      KeepNone(s[1..]);
      assert s == [s[0]] + s[1..];
    }
  }

  /** `RetainedAppend`: the filter distributes over concatenation. */
  lemma {:induction false} RetainedAppend(a: seq<SceneObject>, b: seq<SceneObject>)
    ensures Retained(a + b) == Retained(a) + Retained(b)
  {
    if |a| > 0 {
      assert (a + b)[1..] == a[1..] + b;
      RetainedAppend(a[1..], b);
    } else {
      assert a + b == b;
    }
  }

  lemma {:induction false} RetainedNoneClearable(s: seq<SceneObject>)
    requires forall k :: 0 <= k < |s| ==> !IsClearable(s[k])
    ensures Retained(s) == s
  {
    if |s| > 0 {
      RetainedNoneClearable(s[1..]);
      assert s == [s[0]] + s[1..];
    }
  }

  lemma {:induction false} RetainedAllClearable(s: seq<SceneObject>)
    requires forall k :: 0 <= k < |s| ==> IsClearable(s[k])
    ensures Retained(s) == []
  {
    if |s| > 0 {
      RetainedAllClearable(s[1..]);
    }
  }

  /**
   * Regeneration replaces rather than accumulates: when the mask geometry
   * a regeneration added is cleared by the next one, exactly the objects
   * that survived the first clearing are left.
   */
  lemma RegenerationReplaces(s: seq<SceneObject>, added: seq<SceneObject>)
    requires forall k :: 0 <= k < |added| ==> IsClearable(added[k])
    ensures Retained(Retained(s) + added) == Retained(s)
  {
    RetainedAppend(Retained(s), added);
    RetainedAllClearable(added);
    forall k | 0 <= k < |Retained(s)| ensures !IsClearable(Retained(s)[k]) {
      RetainedMembership(s, Retained(s)[k]);
    }
    RetainedNoneClearable(Retained(s));
  }

  /** `maxVoxels`: the voxel path adds at most this many boxes. */
  const MaxVoxels: nat := 10000

  /** The voxels `maskToVoxels` returns: one per foreground pixel, in scan order. */
  function VoxelList(mask: seq<real>, width: nat, height: nat, threshold: real, voxelSize: real): seq<Voxel> {
    var pixels := ForegroundPixels(mask, width, height, threshold);
    if width == 0 || height == 0 then []
    else seq(|pixels|, i requires 0 <= i < |pixels| => VoxelAt(pixels[i], width, height, voxelSize))
  }

  /** An empty grid or a mask with nothing above the threshold has no foreground. */
  lemma NoForeground(mask: seq<real>, width: nat, height: nat, threshold: real)
    requires width == 0 || height == 0 || forall i :: 0 <= i < |mask| ==> mask[i] <= threshold
    ensures ForegroundPixels(mask, width, height, threshold) == []
  {
    var pixels := ForegroundPixels(mask, width, height, threshold);
    if |pixels| > 0 {
      ForegroundMembership(mask, width, height, threshold, pixels[0]);
    }
  }

  /** A mask with nothing above the threshold gives no voxels. */
  lemma EmptyMaskNoVoxels(mask: seq<real>, width: nat, height: nat, threshold: real, voxelSize: real)
    requires forall i :: 0 <= i < |mask| ==> mask[i] <= threshold
    ensures VoxelList(mask, width, height, threshold, voxelSize) == []
  {
    NoForeground(mask, width, height, threshold);
  }

  /** `voxels.length > maxVoxels ? voxels.slice(0, maxVoxels) : voxels`. */
  function Capped(voxels: seq<Voxel>): (r: seq<Voxel>)
    ensures |r| <= MaxVoxels && |r| <= |voxels| && r == voxels[..|r|]
    ensures |r| == Min(|voxels|, MaxVoxels)
  {
    if |voxels| > MaxVoxels then voxels[..MaxVoxels] else voxels
  }

  function Position(v: Voxel): Vertex {
    Vertex(v.x, v.y, v.z)
  }

  /** The box meshes the voxel path adds, with the identities they receive. */
  function VoxelMeshes(voxels: seq<Voxel>, firstId: nat): seq<SceneObject> {
    seq(|voxels|, i requires 0 <= i < |voxels| => SceneObject(firstId + i, "Mesh", true, VoxelMesh(Position(voxels[i]))))
  }

  /** Everything the renderer adds is mask geometry that the next clearing removes. */
  lemma VoxelMeshesClearable(voxels: seq<Voxel>, firstId: nat)
    ensures forall k :: 0 <= k < |VoxelMeshes(voxels, firstId)| ==> IsClearable(VoxelMeshes(voxels, firstId)[k])
  {
  }

  /** `maskToVoxels` as the renderer receives it. */
  method ComputeVoxels(mask: seq<real>, width: nat, height: nat, threshold: real, voxelSize: real)
    returns (voxels: seq<Voxel>)
    ensures voxels == VoxelList(mask, width, height, threshold, voxelSize)
  {
    voxels := MaskToVoxels(mask, width, height, threshold, voxelSize);
    if width == 0 || height == 0 {
      NoForeground(mask, width, height, threshold);
    }
  }

  /**
   * `createVoxelGeometry`: one box mesh per voxel, for at most the first
   * `maxVoxels` voxels, nothing when there are none.
   */
  method CreateVoxelGeometry(scene: Scene, mask: seq<real>, width: nat, height: nat, threshold: real, voxelSize: real)
    requires scene.Valid()
    modifies scene
    ensures scene.Valid()
    ensures scene.children == old(scene.children) + VoxelMeshes(Capped(VoxelList(mask, width, height, threshold, voxelSize)), old(scene.nextId))
    ensures scene.nextId == old(scene.nextId) + |Capped(VoxelList(mask, width, height, threshold, voxelSize))|
  {
    var voxels := ComputeVoxels(mask, width, height, threshold, voxelSize);
    if |voxels| > 0 {
      var toRender := if |voxels| > MaxVoxels then voxels[..MaxVoxels] else voxels;
      ghost var first := scene.nextId;
      var i := 0;
      while i < |toRender|
        invariant 0 <= i <= |toRender|
        invariant scene.Valid() && scene.nextId == first + i
        invariant scene.children == old(scene.children) + VoxelMeshes(toRender[..i], first)
      {
        scene.Add("Mesh", true, VoxelMesh(Position(toRender[i])));
        assert VoxelMeshes(toRender[..i + 1], first) == VoxelMeshes(toRender[..i], first) + [SceneObject(first + i, "Mesh", true, VoxelMesh(Position(toRender[i])))];
        i := i + 1;
      }
      assert toRender[..i] == toRender;
    }
  }

  function Positions(voxels: seq<Voxel>): seq<Vertex> {
    seq(|voxels|, i requires 0 <= i < |voxels| => Position(voxels[i]))
  }

  /** What `createInstancedVoxelGeometry` adds: one instanced mesh of every voxel, or nothing without voxels. */
  function InstancedObjects(mask: seq<real>, width: nat, height: nat, threshold: real, voxelSize: real, firstId: nat): seq<SceneObject> {
    var voxels := VoxelList(mask, width, height, threshold, voxelSize);
    if |voxels| > 0 then [SceneObject(firstId, "Mesh", true, InstancedVoxels(|voxels|, Positions(voxels)))] else []
  }

  /**
   * `createInstancedVoxelGeometry`: a single instanced mesh holding every
   * voxel, without the `maxVoxels` cap, one instance matrix per voxel in
   * order; nothing when there are no voxels. Three.js `InstancedMesh`
   * inherits the `type` `'Mesh'`, so the next clearing removes it.
   */
  method CreateInstancedVoxelGeometry(scene: Scene, mask: seq<real>, width: nat, height: nat, threshold: real, voxelSize: real)
    requires scene.Valid()
    modifies scene
    ensures scene.Valid()
    ensures var voxels := VoxelList(mask, width, height, threshold, voxelSize);
      scene.children == old(scene.children) +
        (if |voxels| > 0 then [SceneObject(old(scene.nextId), "Mesh", true, InstancedVoxels(|voxels|, Positions(voxels)))] else [])
    ensures scene.children == old(scene.children) + InstancedObjects(mask, width, height, threshold, voxelSize, old(scene.nextId))
  {
    var voxels := ComputeVoxels(mask, width, height, threshold, voxelSize);
    if |voxels| > 0 {
      var matrices := new Vertex[|voxels|](_ => Vertex(0.0, 0.0, 0.0));
      var index := 0;
      while index < |voxels|
        modifies matrices
        invariant 0 <= index <= |voxels|
        invariant forall j :: 0 <= j < index ==> matrices[j] == Position(voxels[j])
      {
        matrices[index] := Position(voxels[index]);
        index := index + 1;
      }
      assert matrices[..] == Positions(voxels);
      scene.Add("Mesh", true, InstancedVoxels(|voxels|, matrices[..]));
    }
  }

  /**
   * What `createMarchingCubesGeometry` adds: the surface of the extruded
   * contours when it has a vertex, the voxel boxes otherwise.
   */
  function MarchingCubesObjects(mask: seq<real>, width: nat, height: nat, threshold: real, voxelSize: real, firstId: nat): seq<SceneObject> {
    var mesh := Extrusion.MarchingCubesMesh(mask, width, height, threshold);
    if |mesh.vertices| > 0 then [SceneObject(firstId, "Mesh", true, SurfaceMesh(mesh))]
    else VoxelMeshes(Capped(VoxelList(mask, width, height, threshold, voxelSize)), firstId)
  }

  /** `createMarchingCubesGeometry`: the extruded surface, or the voxel path when it has no vertices. */
  method CreateMarchingCubesGeometry(scene: Scene, mask: seq<real>, width: nat, height: nat, threshold: real, voxelSize: real)
    returns (mesh: Extrusion.Mesh)
    requires scene.Valid()
    modifies scene
    ensures scene.Valid()
    ensures |mesh.vertices| > 0 ==> scene.children == old(scene.children) + [SceneObject(old(scene.nextId), "Mesh", true, SurfaceMesh(mesh))]
    ensures |mesh.vertices| == 0 ==>
      scene.children == old(scene.children) + VoxelMeshes(Capped(VoxelList(mask, width, height, threshold, voxelSize)), old(scene.nextId))
    ensures (forall i :: 0 <= i < |mask| ==> mask[i] <= threshold) ==> scene.children == old(scene.children)
    ensures mesh == Extrusion.MarchingCubesMesh(mask, width, height, threshold)
    ensures scene.children == old(scene.children) + MarchingCubesObjects(mask, width, height, threshold, voxelSize, old(scene.nextId))
  {
    mesh := Extrusion.MaskToMarchingCubes(mask, width, height, threshold);
    if |mesh.vertices| > 0 {
      scene.Add("Mesh", true, SurfaceMesh(mesh));
    } else {
      CreateVoxelGeometry(scene, mask, width, height, threshold, voxelSize);
      if forall i :: 0 <= i < |mask| ==> mask[i] <= threshold {
        EmptyMaskNoVoxels(mask, width, height, threshold, voxelSize);
      }
    }
  }

  /** The heights `maskToHeightMap` produces for a width x height grid. */
  function HeightSamples(mask: seq<real>, width: nat, height: nat, maxHeight: real): seq<real> {
    seq(width * height, i => HeightAt(mask, maxHeight, i))
  }

  /** The mesh `heightMapToMesh` builds over those heights. */
  function HeightSurface(mask: seq<real>, width: nat, height: nat, maxHeight: real): GridMesh
    requires width >= 2 && height >= 2 && maxHeight != 0.0
  {
    var heights := HeightSamples(mask, width, height, maxHeight);
    GridMesh(GridVertices(heights, width, height, maxHeight, height), GridFaces(width, height - 1), GridUVs(width, height, height))
  }

  /** The height surface always has a vertex per pixel, so the `vertices.length > 0` guard holds. */
  lemma HeightSurfaceNonEmpty(mask: seq<real>, width: nat, height: nat, maxHeight: real)
    requires width >= 2 && height >= 2 && maxHeight != 0.0
    ensures |HeightSurface(mask, width, height, maxHeight).vertices| == width * height > 0
  {
    SampleCounts(HeightSamples(mask, width, height, maxHeight), width, height, maxHeight);
    MulMonotone(1, height, width);
  }

  /**
   * `createHeightMapGeometry`: the height map of the mask, turned into one
   * surface mesh. Its `vertices.length > 0` guard always holds here (see
   * HeightSurfaceNonEmpty), so the mesh is always added.
   */
  method CreateHeightMapGeometry(scene: Scene, mask: seq<real>, width: nat, height: nat, maxHeight: real)
    requires scene.Valid()
    requires width >= 2 && height >= 2 && maxHeight != 0.0
    modifies scene
    ensures scene.Valid()
    ensures scene.children == old(scene.children) + [SceneObject(old(scene.nextId), "Mesh", true, HeightMesh(HeightSurface(mask, width, height, maxHeight)))]
  {
    var heightMap := MaskToHeightMap(mask, width, height, maxHeight);
    assert heightMap.heights == HeightSamples(mask, width, height, maxHeight);
    var mesh := HeightMapToMesh(heightMap.heights, width, height, maxHeight);
    scene.Add("Mesh", true, HeightMesh(mesh));
  }

  /** The `renderStyle` prop, as the geometry switch reads it. */
  datatype RenderStyle = MarchingCubes | VoxelBoxes | HeightMapSurface | InstancedVoxelBoxes

  /** The `switch (renderStyle)`: an unknown style takes the `default`, marching cubes. */
  function ParseStyle(s: string): (r: RenderStyle)
    ensures r == VoxelBoxes <==> s == "voxels"
    ensures r == HeightMapSurface <==> s == "height_map"
    ensures r == InstancedVoxelBoxes <==> s == "instanced_voxels"
    ensures r == MarchingCubes <==> s != "voxels" && s != "height_map" && s != "instanced_voxels"
  {
    match s
    case "marching_cubes" => MarchingCubes
    case "voxels" => VoxelBoxes
    case "height_map" => HeightMapSurface
    case "instanced_voxels" => InstancedVoxelBoxes
    case _ => MarchingCubes
  }

  /**
   * The geometry effect: nothing before the scene is initialised or while
   * there is no processed mask; otherwise the old mask geometry is cleared
   * and geometry of the requested style is added.
   */
  method GenerateGeometry(scene: Scene, initialized: bool, processed: Option<seq<real>>, renderStyle: string,
                          width: nat, height: nat, threshold: real, voxelSize: real, maxHeight: real)
    requires scene.Valid()
    requires initialized && processed.Some? && ParseStyle(renderStyle) == HeightMapSurface ==>
      width >= 2 && height >= 2 && maxHeight != 0.0
    modifies scene
    ensures scene.Valid()
    ensures !initialized || processed.None? ==> scene.children == old(scene.children)
    ensures initialized && processed.Some? ==>
      |Retained(old(scene.children))| <= |scene.children| &&
      scene.children[..|Retained(old(scene.children))|] == Retained(old(scene.children)) &&
      forall k :: |Retained(old(scene.children))| <= k < |scene.children| ==> IsClearable(scene.children[k])
    ensures initialized && processed.Some? && ParseStyle(renderStyle) == VoxelBoxes ==>
      scene.children == Retained(old(scene.children)) + VoxelMeshes(Capped(VoxelList(processed.value, width, height, threshold, voxelSize)), old(scene.nextId))
    ensures initialized && processed.Some? && ParseStyle(renderStyle) == HeightMapSurface ==>
      scene.children == Retained(old(scene.children)) +
        [SceneObject(old(scene.nextId), "Mesh", true, HeightMesh(HeightSurface(processed.value, width, height, maxHeight)))]
    ensures initialized && processed.Some? && ParseStyle(renderStyle) == MarchingCubes ==>
      scene.children == Retained(old(scene.children)) +
        MarchingCubesObjects(processed.value, width, height, threshold, voxelSize, old(scene.nextId))
    ensures initialized && processed.Some? && ParseStyle(renderStyle) == InstancedVoxelBoxes ==>
      scene.children == Retained(old(scene.children)) +
        InstancedObjects(processed.value, width, height, threshold, voxelSize, old(scene.nextId))
  {
    if !initialized || processed.None? {
      return;
    }
    var mask := processed.value;
    ClearMaskGeometry(scene);
    ghost var kept := scene.children;
    match ParseStyle(renderStyle) {
      case MarchingCubes =>
        var mesh := CreateMarchingCubesGeometry(scene, mask, width, height, threshold, voxelSize);
        VoxelMeshesClearable(Capped(VoxelList(mask, width, height, threshold, voxelSize)), old(scene.nextId));
      case VoxelBoxes =>
        CreateVoxelGeometry(scene, mask, width, height, threshold, voxelSize);
        VoxelMeshesClearable(Capped(VoxelList(mask, width, height, threshold, voxelSize)), old(scene.nextId));
      case HeightMapSurface =>
        CreateHeightMapGeometry(scene, mask, width, height, maxHeight);
      case InstancedVoxelBoxes =>
        CreateInstancedVoxelGeometry(scene, mask, width, height, threshold, voxelSize);
    }
    assert scene.children[..|kept|] == kept;
  }
}
