/** Which image layers are visible: the four primary layers selected by the
    presets '1' to '4', and the particle overlay toggled by 'c'. */
module Visibility {
  import opened Grids

  /** The four primary layers, in preset order. */
  datatype Layer = Height | WaterLevel | Bed | Magnitude

  /** The visibility flag of every layer the keys act on: `im_height`,
      `im_waterlevel`, the bed-level layer, `im_mag` and `im_flow`. */
  datatype LayerFlags = LayerFlags(height: bool, waterlevel: bool, bed: bool, magnitude: bool, flow: bool)

  function Shown(v: LayerFlags, l: Layer): bool {
    match l
    case Height => v.height
    case WaterLevel => v.waterlevel
    case Bed => v.bed
    case Magnitude => v.magnitude
  }

  /** After `initialize` only the water level and the particles are visible. */
  const InitialFlags := LayerFlags(height := false, waterlevel := true, bed := false, magnitude := false, flow := true)

  /** The layer a preset key selects, if the key is a preset. */
  function PresetLayer(key: string): (l: Option<Layer>)
    ensures l.Some? <==> key in {"1", "2", "3", "4"}
  {
    if key == "1" then Some(Height)
    else if key == "2" then Some(WaterLevel)
    else if key == "3" then Some(Bed)
    else if key == "4" then Some(Magnitude)
    else None
  }

  /** A preset: the four `set_visible` calls, in the order the source makes them. */
  function ShowOnly(v: LayerFlags, l: Layer): (r: LayerFlags)
    ensures forall o :: Shown(r, o) <==> o == l
    ensures r.flow == v.flow
  {
    v.(waterlevel := l == WaterLevel)
     .(height := l == Height)
     .(bed := l == Bed)
     .(magnitude := l == Magnitude)
  }

  /** 'c': `im_flow.set_visible(not im_flow.get_visible())`. */
  function ToggleFlow(v: LayerFlags): (r: LayerFlags)
    ensures r.flow == !v.flow
    ensures forall o :: Shown(r, o) == Shown(v, o)
  {
    v.(flow := !v.flow)
  }

  /** The visibility after a key press: a preset shows exactly its layer and
      leaves the particle overlay alone, 'c' flips only the overlay, and every
      other key leaves the flags unchanged. */
  function AfterKey(v: LayerFlags, key: string): (r: LayerFlags)
    ensures PresetLayer(key).Some? ==>
      r.flow == v.flow && forall o :: Shown(r, o) <==> o == PresetLayer(key).value
    ensures key == "c" ==> r.flow == !v.flow && forall o :: Shown(r, o) == Shown(v, o)
    ensures PresetLayer(key).None? && key != "c" ==> r == v
  {
    if key == "c" then ToggleFlow(v)
    else match PresetLayer(key)
      case Some(l) => ShowOnly(v, l)
      case None => v
  }

  /** Pressing a preset twice is pressing it once, and pressing 'c' twice
      restores the flags. */
  lemma {:induction false} KeysRepeat(v: LayerFlags, key: string)
    ensures PresetLayer(key).Some? ==> AfterKey(AfterKey(v, key), key) == AfterKey(v, key)
    ensures key == "c" ==> AfterKey(AfterKey(v, key), key) == v
  {
    if PresetLayer(key).Some? {
      var once := AfterKey(v, key);
      var twice := AfterKey(once, key);
      assert Shown(twice, Height) == Shown(once, Height);
      assert Shown(twice, WaterLevel) == Shown(once, WaterLevel);
      assert Shown(twice, Bed) == Shown(once, Bed);
      assert Shown(twice, Magnitude) == Shown(once, Magnitude);
    }
  }

  // The presets as written look the layers up by attribute name. `initialize`
  // names the bed-level layer `im_depth_cells`, while the presets ask for
  // `im_zk`, so the lookup fails after the first two flags have been set.

  /** The attributes a preset may reach, each with its visibility; a lookup of a
      missing name raises and ends the handler with the flags set so far. */
  datatype AttrState = Attrs(visible: map<string, bool>) | AttributeError(name: string, visible: map<string, bool>)

  /** `vis.<name>.set_visible(v)`. */
  function SetVisible(st: AttrState, name: string, v: bool): AttrState {
    match st
    case AttributeError(_, _) => st
    case Attrs(m) => if name in m then Attrs(m[name := v]) else AttributeError(name, m)
  }

  /** The layer attributes `initialize` creates, with their initial visibility. */
  const InitializedAttrs: map<string, bool> := map[
    "im_height" := false, "im_waterlevel" := true, "im_depth_cells" := false,
    "im_mag" := false, "im_flow" := true]

  /** A preset exactly as written: `im_waterlevel`, `im_height`, `im_zk`, `im_mag`. */
  function PresetAsWritten(m: map<string, bool>, l: Layer): AttrState {
    var st := SetVisible(Attrs(m), "im_waterlevel", l == WaterLevel);
    var st := SetVisible(st, "im_height", l == Height);
    var st := SetVisible(st, "im_zk", l == Bed);
    SetVisible(st, "im_mag", l == Magnitude)
  }

  /** On the layers `initialize` builds, every preset raises at `im_zk` after
      setting only the water-level and height flags; preset '4' then leaves none
      of the four primary layers visible. */
  lemma PresetAsWrittenRaises(l: Layer)
    ensures PresetAsWritten(InitializedAttrs, l)
      == AttributeError("im_zk", InitializedAttrs["im_waterlevel" := l == WaterLevel]["im_height" := l == Height])
    ensures l == Magnitude ==>
      var m := PresetAsWritten(InitializedAttrs, l).visible;
      !m["im_height"] && !m["im_waterlevel"] && !m["im_depth_cells"] && !m["im_mag"]
  {
    assert "im_zk" !in InitializedAttrs;
  }
}
