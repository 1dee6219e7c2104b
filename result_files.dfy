/**
 * `resultFilesReducer` and `initialResultFilesState` of
 * src/providers/FileProvider.jsx. The state and the actions are plain
 * JavaScript values; every case builds a new state with object spread and
 * `map`, and a case whose expressions throw (a property read on
 * `undefined`, `map` on a non-array) is reported as a TypeError.
 */
module ResultFiles {
  import opened JsValues

  /** `{type, value}` as the callers dispatch it. */
  function Action(kind: string, value: JsValue): JsValue {
    Obj(map["type" := Str(kind), "value" := value])
  }

  /** `{...obj, key: v}`. */
  function With(obj: JsValue, key: string, v: JsValue): JsValue {
    Obj(Spread(obj)[key := v])
  }

  /** `{row_0: {column_0: ''}}`, the split of a layer that was never tiled. */
  function EmptySplit(): JsValue {
    Obj(map["row_0" := Obj(map["column_0" := Str("")])])
  }

  /** `item.class === action.value.class`, reading `item.class` first. */
  function SameClass(item: JsValue, value: JsValue): Outcome<bool> {
    match Get(item, "class")
    case TypeError => TypeError
    case Ok(c) =>
      match Get(value, "class")
      case TypeError => TypeError
      case Ok(vc) => Ok(StrictEq(c, vc))
  }

  /** Callback of the `layer` and `layer_split` cases: `key` becomes the payload on a class match. */
  function ReplaceOnMatch(item: JsValue, value: JsValue, key: string): Outcome<JsValue> {
    match SameClass(item, value)
    case TypeError => TypeError
    case Ok(same) => if same then Ok(With(item, key, value)) else Ok(item)
  }

  /** Callback of `tile_split`: on a class match, one cell of `split` is replaced. */
  function SetTile(item: JsValue, value: JsValue): Outcome<JsValue> {
    match SameClass(item, value)
    case TypeError => TypeError
    case Ok(same) =>
      if !same then Ok(item)
      else
        var split := OptGet(item, "split");
        var rowKey := ToKey(OptGet(value, "row"));
        match Get(split, rowKey)
        case TypeError => TypeError
        case Ok(row) =>
          var newRow := Obj(Spread(row)[ToKey(OptGet(value, "column")) := OptGet(value, "value")]);
          Ok(With(item, "split", Obj(Spread(split)[rowKey := newRow])))
  }

  /** Callback of `all_split`: `{...item, split: action.value[item.class]}`. */
  function SplitForClass(item: JsValue, value: JsValue): Outcome<JsValue> {
    match Get(item, "class")
    case TypeError => TypeError
    case Ok(c) =>
      match Get(value, ToKey(c))
      case TypeError => TypeError
      case Ok(s) => Ok(With(item, "split", s))
  }

  /** `state.segmentation[index]?.split || {row_0: {column_0: ''}}`. */
  function PreviousSplit(state: JsValue, index: nat): Outcome<JsValue> {
    match ThenGet(Get(state, "segmentation"), NatToString(index))
    case TypeError => TypeError
    case Ok(previous) => Ok(Or(OptGet(previous, "split"), EmptySplit()))
  }

  /** Callback of `all_result`: keep the incoming split, else the previous one, else the empty one. */
  function KeepSplit(state: JsValue, item: JsValue, index: nat): Outcome<JsValue> {
    match Get(item, "split")
    case TypeError => TypeError
    case Ok(s) =>
      if Truthy(s) then Ok(With(item, "split", s))
      else
        match PreviousSplit(state, index)
        case TypeError => TypeError
        case Ok(fallback) => Ok(With(item, "split", fallback))
  }

  /** Callback of `edit_segmentation`. */
  function EditItem(state: JsValue, segmentation: JsValue, item: JsValue, index: nat): Outcome<JsValue> {
    match PreviousSplit(state, index)
    case TypeError => TypeError
    case Ok(split) =>
      match Get(segmentation, NatToString(index))
      case TypeError => TypeError
      case Ok(png) => Ok(Obj(Spread(item)["split" := split]["png" := png]))
  }

  /** `a || state[key]`, evaluating `state[key]` only when a is falsy. */
  function OrState(a: JsValue, state: JsValue, key: string): Outcome<JsValue> {
    if Truthy(a) then Ok(a) else Get(state, key)
  }

  /** `{segmentation: s, graph: g}` from two outcomes, evaluated in that order. */
  function Pair(s: Outcome<JsValue>, g: Outcome<JsValue>): Outcome<JsValue> {
    match s
    case TypeError => TypeError
    case Ok(sv) =>
      match g
      case TypeError => TypeError
      case Ok(gv) => Ok(Obj(map["segmentation" := sv, "graph" := gv]))
  }

  /** `{...state, segmentation: state.segmentation.map(f)}`. */
  function MapSegmentation(state: JsValue, f: (JsValue, nat) -> Outcome<JsValue>): Outcome<JsValue> {
    match Get(state, "segmentation")
    case TypeError => TypeError
    case Ok(seg) =>
      match MapArray(seg, f)
      case TypeError => TypeError
      case Ok(mapped) => Ok(With(state, "segmentation", mapped))
  }

  function IsType(t: JsValue, kind: string): bool {
    StrictEq(t, Str(kind))
  }

  function LayerPng(value: JsValue): (JsValue, nat) -> Outcome<JsValue> {
    (item: JsValue, i: nat) => ReplaceOnMatch(item, value, "png")
  }

  function TileSplit(value: JsValue): (JsValue, nat) -> Outcome<JsValue> {
    (item: JsValue, i: nat) => SetTile(item, value)
  }

  function LayerSplit(value: JsValue): (JsValue, nat) -> Outcome<JsValue> {
    (item: JsValue, i: nat) => ReplaceOnMatch(item, value, "split")
  }

  function AllSplit(value: JsValue): (JsValue, nat) -> Outcome<JsValue> {
    (item: JsValue, i: nat) => SplitForClass(item, value)
  }

  function AllResult(state: JsValue): (JsValue, nat) -> Outcome<JsValue> {
    (item: JsValue, i: nat) => KeepSplit(state, item, i)
  }

  function EditSegmentation(state: JsValue, incoming: JsValue): (JsValue, nat) -> Outcome<JsValue> {
    (item: JsValue, i: nat) => EditItem(state, incoming, item, i)
  }

  /** The `all_result` case. */
  function ReduceAllResult(state: JsValue, value: JsValue): Outcome<JsValue> {
    var incoming := OptGet(value, "segmentation");
    var mapped := if IsNullish(incoming) then Ok(Undefined) else MapArray(incoming, AllResult(state));
    var segmentation := match mapped
      case TypeError => TypeError
      case Ok(m) => OrState(m, state, "segmentation");
    Pair(segmentation, OrState(OptGet(value, "graph"), state, "graph"))
  }

  /** The `edit_segmentation` case. */
  function ReduceEditSegmentation(state: JsValue, value: JsValue): Outcome<JsValue> {
    match Get(state, "graph")
    case TypeError => TypeError
    case Ok(graph) =>
      match Get(value, "segmentation")
      case TypeError => TypeError
      case Ok(incoming) =>
        match MapArray(incoming, EditSegmentation(state, incoming))
        case TypeError => TypeError
        case Ok(mapped) => Ok(Obj(map["graph" := graph, "segmentation" := mapped]))
  }

  /** The `switch` on `action.type` (compared with `===`), given `action.value`. */
  function ReduceCase(state: JsValue, t: JsValue, value: JsValue): Outcome<JsValue> {
    if IsType(t, "segmentation") then Ok(With(state, "segmentation", value))
    else if IsType(t, "graph") then Ok(With(state, "graph", value))
    else if IsType(t, "layer") then MapSegmentation(state, LayerPng(value))
    else if IsType(t, "tile_split") then MapSegmentation(state, TileSplit(value))
    else if IsType(t, "layer_split") then MapSegmentation(state, LayerSplit(value))
    else if IsType(t, "all_split") then MapSegmentation(state, AllSplit(value))
    else if IsType(t, "all_result") then ReduceAllResult(state, value)
    else if IsType(t, "all") then
      Pair(OrState(OptGet(value, "segmentation"), state, "segmentation"), OrState(OptGet(value, "graph"), state, "graph"))
    else if IsType(t, "edit_segmentation") then ReduceEditSegmentation(state, value)
    else Ok(state)
  }

  /** `resultFilesReducer(state, action)`. */
  function Reduce(state: JsValue, action: JsValue): Outcome<JsValue> {
    match Get(action, "type")
    case TypeError => TypeError
    case Ok(t) => ReduceCase(state, t, OptGet(action, "value"))
  }

  /** A dispatched `{type, value}` selects its case with its payload. */
  lemma ActionDispatch(state: JsValue, kind: string, value: JsValue)
    ensures Reduce(state, Action(kind, value)) == ReduceCase(state, Str(kind), value)
  {
    assert Get(Action(kind, value), "type") == Ok(Str(kind));
    assert OptGet(Action(kind, value), "value") == value;
  }

  /** `all_result` dispatches to its case. */
  lemma DispatchAllResult(state: JsValue, value: JsValue)
    ensures Reduce(state, Action("all_result", value)) == ReduceAllResult(state, value)
  {
    ActionDispatch(state, "all_result", value);
    assert "all_result" != "segmentation" && "all_result" != "graph" && "all_result" != "layer" && "all_result" != "tile_split";
    assert "all_result" != "layer_split" && "all_result" != "all_split";
  }

  /** `edit_segmentation` dispatches to its case. */
  lemma DispatchEditSegmentation(state: JsValue, value: JsValue)
    ensures Reduce(state, Action("edit_segmentation", value)) == ReduceEditSegmentation(state, value)
  {
    ActionDispatch(state, "edit_segmentation", value);
    assert "edit_segmentation" != "segmentation" && "edit_segmentation" != "graph" && "edit_segmentation" != "layer" && "edit_segmentation" != "tile_split";
    assert "edit_segmentation" != "layer_split" && "edit_segmentation" != "all_split" && "edit_segmentation" != "all_result" && "edit_segmentation" != "all";
  }

  /** `all` dispatches to its case. */
  lemma DispatchAll(state: JsValue, value: JsValue)
    ensures Reduce(state, Action("all", value))
            == Pair(OrState(OptGet(value, "segmentation"), state, "segmentation"), OrState(OptGet(value, "graph"), state, "graph"))
  {
    ActionDispatch(state, "all", value);
    assert "all" != "segmentation" && "all" != "graph" && "all" != "layer" && "all" != "tile_split";
    assert "all" != "layer_split" && "all" != "all_split" && "all" != "all_result";
  }

  const Classes: seq<string> := ["wall", "doorway", "window", "appartment_unit", "hallway",
                                 "elevator", "stairwell", "public_ammenity", "balcony"]

  function InitialItem(c: string): JsValue {
    Obj(map["class" := Str(c), "png" := Str(""), "split" := EmptySplit()])
  }

  /** `initialResultFilesState`. */
  function InitialState(): (s: JsValue)
    ensures s.Obj? && s.fields.Keys == {"segmentation", "graph"}
  {
    Obj(map["segmentation" := Arr(seq(|Classes|, i requires 0 <= i < |Classes| => InitialItem(Classes[i]))),
            "graph" := Obj(map["nodes" := Arr([]), "edges" := Arr([])])])
  }

  /** A well-formed state: an object whose `segmentation` is an array. */
  predicate HasLayers(state: JsValue) {
    state.Obj? && "segmentation" in state.fields && state.fields["segmentation"].Arr?
  }

  function Layers(state: JsValue): seq<JsValue>
    requires HasLayers(state)
  {
    state.fields["segmentation"].items
  }

  /** `segmentation` replaces the `segmentation` field and nothing else. */
  lemma SegmentationReplacesOnlySegmentation(state: JsValue, v: JsValue)
    requires state.Obj?
    ensures Reduce(state, Action("segmentation", v)).Ok?
    ensures Get(Reduce(state, Action("segmentation", v)).value, "segmentation") == Ok(v)
    ensures forall k :: k != "segmentation" ==> Get(Reduce(state, Action("segmentation", v)).value, k) == Get(state, k)
  {
  }

  /** `graph` replaces the `graph` field and nothing else. */
  lemma GraphReplacesOnlyGraph(state: JsValue, v: JsValue)
    requires state.Obj?
    ensures Reduce(state, Action("graph", v)).Ok?
    ensures Get(Reduce(state, Action("graph", v)).value, "graph") == Ok(v)
    ensures forall k :: k != "graph" ==> Get(Reduce(state, Action("graph", v)).value, k) == Get(state, k)
  {
  }

  /**
   * The per-layer cases map the layer array: the result keeps every other
   * field of the state and has one layer per input layer, each the callback's
   * result on that layer; the case throws exactly when a callback does.
   */
  lemma MapSegmentationShape(state: JsValue, f: (JsValue, nat) -> Outcome<JsValue>)
    requires HasLayers(state)
    ensures MapSegmentation(state, f).Ok? <==> forall k :: 0 <= k < |Layers(state)| ==> f(Layers(state)[k], k).Ok?
    ensures MapSegmentation(state, f).Ok? ==>
              var r := MapSegmentation(state, f).value;
              HasLayers(r) && |Layers(r)| == |Layers(state)|
              && (forall k :: 0 <= k < |Layers(state)| ==> f(Layers(state)[k], k) == Ok(Layers(r)[k]))
              && (forall key :: key != "segmentation" ==> Get(r, key) == Get(state, key))
  {
    var seg := state.fields["segmentation"];
    assert Get(state, "segmentation") == Ok(seg);
    assert MapSegmentation(state, f).Ok? <==> MapArray(seg, f).Ok?;
    assert Layers(state) == seg.items;
    assert MapArray(seg, f).Ok? <==> (forall k :: 0 <= k < |seg.items| ==> f(seg.items[k], k).Ok?);
  }

  /** `layer`: matching layers get the whole payload as `png`, the others are returned as they are. */
  lemma LayerSetsPng(item: JsValue, value: JsValue)
    requires !IsNullish(item) && !IsNullish(value)
    ensures ReplaceOnMatch(item, value, "png").Ok?
    ensures StrictEq(OptGet(item, "class"), OptGet(value, "class")) ==>
              ReplaceOnMatch(item, value, "png").value == With(item, "png", value)
    ensures !StrictEq(OptGet(item, "class"), OptGet(value, "class")) ==>
              ReplaceOnMatch(item, value, "png").value == item
  {
  }

  /** A nullish layer (or payload) makes every per-layer case throw. */
  lemma NullishLayerThrows(item: JsValue, value: JsValue, key: string)
    requires IsNullish(item) || IsNullish(value)
    ensures ReplaceOnMatch(item, value, key) == TypeError
    ensures SetTile(item, value) == TypeError
  {
  }

  /** `split[row][column]` of a layer, when both levels can be read. */
  function CellOf(item: JsValue, row: string, column: string): Outcome<JsValue> {
    ThenGet(ThenGet(Get(item, "split"), row), column)
  }

  /**
   * `tile_split` on a matching layer whose split is an object of row
   * objects: the addressed cell holds `action.value.value`; every other
   * cell, every other row and every other field of the layer is unchanged.
   */
  lemma TileSplitChangesOneCell(item: JsValue, value: JsValue)
    requires item.Obj? && value.Obj?
    requires SameClass(item, value) == Ok(true)
    requires OptGet(item, "split").Obj?
    requires forall r :: r in OptGet(item, "split").fields ==> OptGet(item, "split").fields[r].Obj?
    ensures SetTile(item, value).Ok?
    ensures var row := ToKey(OptGet(value, "row"));
            var column := ToKey(OptGet(value, "column"));
            var updated := SetTile(item, value).value;
            CellOf(updated, row, column) == Ok(OptGet(value, "value"))
            && (forall c :: c != column ==> CellOf(updated, row, c) == CellOf(item, row, c) || !(row in OptGet(item, "split").fields))
            && (forall r, c :: r != row ==> CellOf(updated, r, c) == CellOf(item, r, c))
            && (forall key :: key != "split" ==> Get(updated, key) == Get(item, key))
  {
  }

  /** A layer of another class is returned untouched by `tile_split`. */
  lemma TileSplitSkipsOtherClasses(item: JsValue, value: JsValue)
    requires SameClass(item, value) == Ok(false)
    ensures SetTile(item, value) == Ok(item)
  {
  }

  /** A matching layer whose split cannot be read as an object of rows makes `tile_split` throw. */
  lemma TileSplitThrowsWithoutSplit(item: JsValue, value: JsValue)
    requires SameClass(item, value) == Ok(true)
    requires IsNullish(OptGet(item, "split"))
    ensures SetTile(item, value) == TypeError
  {
  }

  /** `layer_split`: the matching layers' whole `split` becomes the payload. */
  lemma LayerSplitReplacesSplit(item: JsValue, value: JsValue)
    requires !IsNullish(item) && !IsNullish(value)
    ensures ReplaceOnMatch(item, value, "split").Ok?
    ensures var r := ReplaceOnMatch(item, value, "split").value;
            if StrictEq(OptGet(item, "class"), OptGet(value, "class"))
            then Get(r, "split") == Ok(value) && forall k :: k != "split" ==> Get(r, k) == Get(With(item, "split", value), k)
            else r == item
  {
  }

  /** `all_split`: every layer's `split` becomes the payload's entry for its class. */
  lemma AllSplitByClass(item: JsValue, value: JsValue)
    requires !IsNullish(item) && !IsNullish(value)
    ensures SplitForClass(item, value).Ok?
    ensures Get(SplitForClass(item, value).value, "split") == Ok(OptGet(value, ToKey(OptGet(item, "class"))))
    ensures forall k :: k != "split" ==> Get(SplitForClass(item, value).value, k) == Get(Obj(Spread(item)), k)
  {
  }

  /**
   * `all_result` on a well-formed state with an incoming array of layer
   * objects: each incoming layer keeps its own `split`, else takes the
   * previous state's split at the same position, else the empty split; the
   * graph is the incoming one when truthy; no other field survives.
   */
  lemma AllResultKeepsSplits(state: JsValue, value: JsValue)
    requires HasLayers(state) && value.Obj?
    requires "segmentation" in value.fields && value.fields["segmentation"].Arr?
    requires forall k :: 0 <= k < |value.fields["segmentation"].items| ==> value.fields["segmentation"].items[k].Obj?
    ensures Reduce(state, Action("all_result", value)).Ok?
    ensures var r := Reduce(state, Action("all_result", value)).value;
            var incoming := value.fields["segmentation"].items;
            r.Obj? && r.fields.Keys == {"segmentation", "graph"}
            && r.fields["graph"] == Or(OptGet(value, "graph"), OptGet(state, "graph"))
            && HasLayers(r) && |Layers(r)| == |incoming|
            && forall k :: 0 <= k < |incoming| ==>
                 var previous := OptGet(OptGet(state, "segmentation"), NatToString(k));
                 Layers(r)[k] == With(incoming[k], "split", Or(OptGet(incoming[k], "split"), Or(OptGet(previous, "split"), EmptySplit())))
  {
    DispatchAllResult(state, value);
    AllResultCase(state, value);
  }

  /** The `all_result` case itself, on the conditions of AllResultKeepsSplits. */
  lemma AllResultCase(state: JsValue, value: JsValue)
    requires HasLayers(state) && value.Obj?
    requires "segmentation" in value.fields && value.fields["segmentation"].Arr?
    requires forall k :: 0 <= k < |value.fields["segmentation"].items| ==> value.fields["segmentation"].items[k].Obj?
    ensures ReduceAllResult(state, value).Ok?
    ensures var r := ReduceAllResult(state, value).value;
            var incoming := value.fields["segmentation"].items;
            r.Obj? && r.fields.Keys == {"segmentation", "graph"}
            && r.fields["graph"] == Or(OptGet(value, "graph"), OptGet(state, "graph"))
            && HasLayers(r) && |Layers(r)| == |incoming|
            && forall k :: 0 <= k < |incoming| ==>
                 var previous := OptGet(OptGet(state, "segmentation"), NatToString(k));
                 Layers(r)[k] == With(incoming[k], "split", Or(OptGet(incoming[k], "split"), Or(OptGet(previous, "split"), EmptySplit())))
  {
    var incoming := value.fields["segmentation"];
    assert OptGet(value, "segmentation") == incoming;
    forall k | 0 <= k < |incoming.items|
      ensures AllResult(state)(incoming.items[k], k)
              == Ok(With(incoming.items[k], "split", Or(OptGet(incoming.items[k], "split"),
                   Or(OptGet(OptGet(OptGet(state, "segmentation"), NatToString(k)), "split"), EmptySplit()))))
    {
      KeepSplitValue(state, incoming.items[k], k);
    }
  }

  /** The `all_result` callback on a layer object of a well-formed state. */
  lemma KeepSplitValue(state: JsValue, item: JsValue, k: nat)
    requires HasLayers(state) && item.Obj?
    ensures KeepSplit(state, item, k)
            == Ok(With(item, "split", Or(OptGet(item, "split"),
                 Or(OptGet(OptGet(OptGet(state, "segmentation"), NatToString(k)), "split"), EmptySplit()))))
  {
    assert Get(state, "segmentation") == Ok(OptGet(state, "segmentation"));
  }

  /** `all_result` without an incoming layer array keeps the current layers. */
  lemma AllResultWithoutLayers(state: JsValue, value: JsValue)
    requires HasLayers(state)
    requires IsNullish(OptGet(value, "segmentation"))
    ensures Reduce(state, Action("all_result", value))
            == Ok(Obj(map["segmentation" := state.fields["segmentation"],
                          "graph" := Or(OptGet(value, "graph"), OptGet(state, "graph"))]))
  {
    DispatchAllResult(state, value);
    assert OrState(Undefined, state, "segmentation") == Ok(state.fields["segmentation"]);
  }

  /** `all` with an undefined or empty payload returns both fields as they were. */
  lemma AllWithEmptyPayload(state: JsValue, value: JsValue)
    requires state.Obj? && (value == Undefined || value == Obj(map[]))
    ensures Reduce(state, Action("all", value))
            == Ok(Obj(map["segmentation" := OptGet(state, "segmentation"), "graph" := OptGet(state, "graph")]))
  {
    DispatchAll(state, value);
  }

  /** `all` with truthy fields takes them from the payload. */
  lemma AllTakesPayload(state: JsValue, value: JsValue)
    requires state.Obj? && value.Obj?
    requires Truthy(OptGet(value, "segmentation")) && Truthy(OptGet(value, "graph"))
    ensures Reduce(state, Action("all", value))
            == Ok(Obj(map["segmentation" := OptGet(value, "segmentation"), "graph" := OptGet(value, "graph")]))
  {
    DispatchAll(state, value);
  }

  const KnownTypes: set<string> := {"segmentation", "graph", "layer", "tile_split", "layer_split",
                                    "all_split", "all_result", "all", "edit_segmentation"}

  /**
   * Any other action type, `set_segmentation` included, and a missing or
   * non-string type leave the state as it is.
   */
  lemma UnknownTypeKeepsState(state: JsValue, action: JsValue)
    requires action.Obj?
    requires var t := OptGet(action, "type"); !(t.Str? && t.s in KnownTypes)
    ensures Reduce(state, action) == Ok(state)
  {
    var t := OptGet(action, "type");
    assert Get(action, "type") == Ok(t);
    assert forall kind :: kind in KnownTypes ==> !IsType(t, kind);
  }

  /** An action that is `undefined` or `null` throws. */
  lemma NullishActionThrows(state: JsValue, action: JsValue)
    requires IsNullish(action)
    ensures Reduce(state, action) == TypeError
  {
  }

  /**
   * `edit_segmentation`: the graph is carried over, and each incoming layer
   * keeps its own fields, takes the previous split at its position and, as
   * written, its own incoming entry as `png`.
   */
  lemma EditSegmentationShape(state: JsValue, value: JsValue)
    requires state.Obj? && HasLayers(state) && value.Obj?
    requires "segmentation" in value.fields && value.fields["segmentation"].Arr?
    ensures Reduce(state, Action("edit_segmentation", value)).Ok?
    ensures var r := Reduce(state, Action("edit_segmentation", value)).value;
            var incoming := value.fields["segmentation"].items;
            HasLayers(r) && |Layers(r)| == |incoming|
            && forall k :: 0 <= k < |incoming| ==>
                 var previous := OptGet(OptGet(state, "segmentation"), NatToString(k));
                 Get(Layers(r)[k], "png") == Ok(incoming[k])
                 && Get(Layers(r)[k], "split") == Ok(Or(OptGet(previous, "split"), EmptySplit()))
    // the result has exactly the two keys, with the graph carried over
    ensures var r := Reduce(state, Action("edit_segmentation", value)).value;
            r.Obj? && r.fields.Keys == {"graph", "segmentation"} && r.fields["graph"] == OptGet(state, "graph")
    // each layer is the incoming entry spread, then `split` and `png` set
    ensures var r := Reduce(state, Action("edit_segmentation", value)).value;
            var incoming := value.fields["segmentation"].items;
            HasLayers(r) && |Layers(r)| == |incoming|
            && forall k :: 0 <= k < |incoming| ==>
                 var previous := OptGet(OptGet(state, "segmentation"), NatToString(k));
                 Layers(r)[k] == Obj(Spread(incoming[k])["split" := Or(OptGet(previous, "split"), EmptySplit())]["png" := incoming[k]])
  {
    DispatchEditSegmentation(state, value);
    EditSegmentationCase(state, value);
  }

  /** The `edit_segmentation` case itself, on the conditions of EditSegmentationShape. */
  lemma EditSegmentationCase(state: JsValue, value: JsValue)
    requires state.Obj? && HasLayers(state) && value.Obj?
    requires "segmentation" in value.fields && value.fields["segmentation"].Arr?
    ensures ReduceEditSegmentation(state, value).Ok?
    ensures var r := ReduceEditSegmentation(state, value).value;
            var incoming := value.fields["segmentation"].items;
            HasLayers(r) && |Layers(r)| == |incoming|
            && forall k :: 0 <= k < |incoming| ==>
                 var previous := OptGet(OptGet(state, "segmentation"), NatToString(k));
                 Get(Layers(r)[k], "png") == Ok(incoming[k])
                 && Get(Layers(r)[k], "split") == Ok(Or(OptGet(previous, "split"), EmptySplit()))
    // the result has exactly the two keys, with the graph carried over
    ensures var r := ReduceEditSegmentation(state, value).value;
            r.Obj? && r.fields.Keys == {"graph", "segmentation"} && r.fields["graph"] == OptGet(state, "graph")
    // each layer is the incoming entry spread, then `split` and `png` set
    ensures var r := ReduceEditSegmentation(state, value).value;
            var incoming := value.fields["segmentation"].items;
            HasLayers(r) && |Layers(r)| == |incoming|
            && forall k :: 0 <= k < |incoming| ==>
                 var previous := OptGet(OptGet(state, "segmentation"), NatToString(k));
                 Layers(r)[k] == Obj(Spread(incoming[k])["split" := Or(OptGet(previous, "split"), EmptySplit())]["png" := incoming[k]])
  {
    var incoming := value.fields["segmentation"];
    var f := EditSegmentation(state, incoming);
    forall k | 0 <= k < |incoming.items|
      ensures f(incoming.items[k], k)
              == Ok(Obj(Spread(incoming.items[k])["split" := Or(OptGet(OptGet(OptGet(state, "segmentation"), NatToString(k)), "split"), EmptySplit())]
                                                 ["png" := incoming.items[k]]))
    {
      ParseIndexRoundTrip(k);
      assert Get(incoming, NatToString(k)) == Ok(incoming.items[k]);
    }
    assert Get(state, "graph").Ok?;
    assert Get(value, "segmentation") == Ok(incoming);
  }

  /**
   * The initial state: nine layers with distinct classes, an empty `png` and
   * the empty split each, and an empty graph. Resetting it with
   * `{type: 'all', value: initialResultFilesState}` is a no-op.
   */
  lemma InitialStateShape()
    ensures HasLayers(InitialState()) && |Layers(InitialState())| == 9
    ensures forall k :: 0 <= k < 9 ==>
              Get(Layers(InitialState())[k], "png") == Ok(Str(""))
              && Get(Layers(InitialState())[k], "split") == Ok(EmptySplit())
    ensures forall j, k :: 0 <= j < k < 9 ==>
              Get(Layers(InitialState())[j], "class") != Get(Layers(InitialState())[k], "class")
    ensures Reduce(InitialState(), Action("all", InitialState())) == Ok(InitialState())
  {
    InitialClassesDistinct();
    InitialStateReset();
  }

  lemma InitialClassesDistinct()
    ensures HasLayers(InitialState()) && |Layers(InitialState())| == 9
    ensures forall j, k :: 0 <= j < k < 9 ==>
              Get(Layers(InitialState())[j], "class") != Get(Layers(InitialState())[k], "class")
  {
    forall j, k | 0 <= j < k < 9
      ensures Get(Layers(InitialState())[j], "class") != Get(Layers(InitialState())[k], "class")
    {
      assert Get(Layers(InitialState())[j], "class") == Ok(Str(Classes[j]));
      assert Get(Layers(InitialState())[k], "class") == Ok(Str(Classes[k]));
      assert Classes[j] != Classes[k];
    }
  }

  lemma InitialStateReset()
    ensures Reduce(InitialState(), Action("all", InitialState())) == Ok(InitialState())
  {
    var s := InitialState();
    DispatchAll(s, s);
    assert s.fields == map["segmentation" := OptGet(s, "segmentation"), "graph" := OptGet(s, "graph")];
  }
}
