/** `process_events`: the keyboard handler. Key presses change the visible
    layers, reset the particle buffer from the camera, or push bed-level edits
    back into the running model through `set_var_slice`; the calls it makes on
    the model are its output. */
module Events {
  import opened Grids
  import opened Visibility
  import opened Display

  /** What the figure hands the handler: a key press, or any other event. */
  datatype Event = KeyPress(key: string) | OtherEvent

  /** One call `model.set_var_slice(name, [start], [count], values)`; `start`
      is 1-based, as the model's interface counts. */
  datatype SliceWrite = SliceWrite(name: string, start: nat, count: nat, values: seq<real>)

  /** The write addresses entries of a variable with `n` entries. */
  predicate WriteInRange(wr: SliceWrite, n: nat) {
    1 <= wr.start && wr.count == |wr.values| && wr.start - 1 + wr.count <= n
  }

  predicate WritesInRange(ws: seq<SliceWrite>, n: nat) {
    forall j :: 0 <= j < |ws| ==> WriteInRange(ws[j], n)
  }

  /** The write puts back entry `i` (0-based, among the first `n`): a selected
      entry whose current value differs from its target, written alone with
      its target value. */
  predicate WritesBack(wr: SliceWrite, name: string, current: seq<real>, target: seq<real>, selected: seq<bool>, n: nat)
    requires n <= |current| && n <= |target| && n <= |selected|
  {
    wr.name == name && 1 <= wr.start <= n && wr.count == 1 &&
    selected[wr.start - 1] && current[wr.start - 1] != target[wr.start - 1] &&
    wr.values == [target[wr.start - 1]]
  }

  /** The loop `for i ...: if current[i] != target[i]: set_var_slice(name,
      [i + 1], [1], target[i:i + 1])` over the first `n` entries, skipping
      the unselected ones. Every write puts back one selected entry that
      differs, and the writes go in increasing order. */
  function ChangedWrites(name: string, current: seq<real>, target: seq<real>, selected: seq<bool>, n: nat): (ws: seq<SliceWrite>)
    requires n <= |current| && n <= |target| && n <= |selected|
    ensures forall j :: 0 <= j < |ws| ==> WritesBack(ws[j], name, current, target, selected, n)
    ensures forall j, k :: 0 <= j < k < |ws| ==> ws[j].start < ws[k].start
    decreases n
  {
    if n == 0 then []
    else
      var ws := ChangedWrites(name, current, target, selected, n - 1);
      if selected[n - 1] && current[n - 1] != target[n - 1] then ws + [SliceWrite(name, n, 1, [target[n - 1]])]
      else ws
  }

  /** Every selected entry that differs gets its write. */
  lemma {:induction false} ChangedWritesComplete(name: string, current: seq<real>, target: seq<real>, selected: seq<bool>, n: nat)
    requires n <= |current| && n <= |target| && n <= |selected|
    ensures forall i :: 0 <= i < n && selected[i] && current[i] != target[i] ==>
      SliceWrite(name, i + 1, 1, [target[i]]) in ChangedWrites(name, current, target, selected, n)
    decreases n
  {
    if n > 0 {
      ChangedWritesComplete(name, current, target, selected, n - 1);
      var ws := ChangedWrites(name, current, target, selected, n);
      var prefix := ChangedWrites(name, current, target, selected, n - 1);
      assert forall wr :: wr in prefix ==> wr in ws;
    }
  }

  /** What one write does to the variable: the addressed entries take the
      written values, every other entry is kept. */
  function ApplyWrite(values: seq<real>, wr: SliceWrite): (r: seq<real>)
    requires WriteInRange(wr, |values|)
    ensures |r| == |values|
    ensures forall i :: 0 <= i < |values| ==>
      r[i] == if wr.start - 1 <= i < wr.start - 1 + wr.count then wr.values[i - (wr.start - 1)] else values[i]
  {
    values[..wr.start - 1] + wr.values + values[wr.start - 1 + wr.count..]
  }

  /** The writes applied in the order they were made. */
  function ApplyWrites(values: seq<real>, ws: seq<SliceWrite>): (r: seq<real>)
    requires WritesInRange(ws, |values|)
    ensures |r| == |values|
    decreases |ws|
  {
    if ws == [] then values
    else ApplyWrite(ApplyWrites(values, ws[..|ws| - 1]), ws[|ws| - 1])
  }

  /** The variable as the edit means it to be: the target on the selected
      entries among the first `n`, the current value elsewhere. */
  function Edited(current: seq<real>, target: seq<real>, selected: seq<bool>, n: nat): (r: seq<real>)
    requires |target| == |current| && |selected| == |current|
  {
    seq(|current|, i requires 0 <= i < |current| => if i < n && selected[i] then target[i] else current[i])
  }

  /** Writing entry `n - 1` back turns the edit of the first `n - 1` entries
      into the edit of the first `n`. */
  lemma WriteExtendsEdit(name: string, current: seq<real>, target: seq<real>, selected: seq<bool>, n: nat)
    requires |target| == |current| && |selected| == |current| && 0 < n <= |current| && selected[n - 1]
    ensures ApplyWrite(Edited(current, target, selected, n - 1), SliceWrite(name, n, 1, [target[n - 1]]))
      == Edited(current, target, selected, n)
  {
    var r := ApplyWrite(Edited(current, target, selected, n - 1), SliceWrite(name, n, 1, [target[n - 1]]));
    var after := Edited(current, target, selected, n);
    forall i | 0 <= i < |current|
      ensures r[i] == after[i]
    {
    }
  }

  /** An entry that needs no write leaves the edit as it was. */
  lemma SkippedEntryKeepsEdit(current: seq<real>, target: seq<real>, selected: seq<bool>, n: nat)
    requires |target| == |current| && |selected| == |current| && 0 < n <= |current|
    requires !(selected[n - 1] && current[n - 1] != target[n - 1])
    ensures Edited(current, target, selected, n - 1) == Edited(current, target, selected, n)
  {
    var before := Edited(current, target, selected, n - 1);
    var after := Edited(current, target, selected, n);
    forall i | 0 <= i < |current|
      ensures before[i] == after[i]
    {
    }
  }

  /** Applying the issued writes to the model's copy of the variable leaves it
      as the edit means it to be: skipping the unchanged entries loses nothing. */
  lemma {:induction false} ChangedWritesReachTarget(name: string, current: seq<real>, target: seq<real>, selected: seq<bool>, n: nat)
    requires |target| == |current| && |selected| == |current| && n <= |current|
    ensures WritesInRange(ChangedWrites(name, current, target, selected, n), |current|)
    ensures ApplyWrites(current, ChangedWrites(name, current, target, selected, n)) == Edited(current, target, selected, n)
    decreases n
  {
    var ws := ChangedWrites(name, current, target, selected, n);
    if n == 0 {
      assert Edited(current, target, selected, n) == current;
    } else {
      ChangedWritesReachTarget(name, current, target, selected, n - 1);
      var prefix := ChangedWrites(name, current, target, selected, n - 1);
      if selected[n - 1] && current[n - 1] != target[n - 1] {
        var w := SliceWrite(name, n, 1, [target[n - 1]]);
        assert ws == prefix + [w];
        assert ws[..|ws| - 1] == prefix;
        assert ApplyWrites(current, ws) == ApplyWrite(ApplyWrites(current, prefix), w);
        WriteExtendsEdit(name, current, target, selected, n);
      } else {
        assert ws == prefix;
        SkippedEntryKeepsEdit(current, target, selected, n);
      }
    }
  }

  /** Where every selected entry already holds its target, nothing is written. */
  lemma {:induction false} NoWritesWhenDone(name: string, current: seq<real>, target: seq<real>, selected: seq<bool>, n: nat)
    requires n <= |current| && n <= |target| && n <= |selected|
    requires forall i :: 0 <= i < n && selected[i] ==> current[i] == target[i]
    ensures ChangedWrites(name, current, target, selected, n) == []
    decreases n
  {
    if n > 0 {
      NoWritesWhenDone(name, current, target, selected, n - 1);
    }
  }

  /** Once the variable holds the edit, the same edit issues no writes. */
  lemma EditIsIdempotent(name: string, current: seq<real>, target: seq<real>, selected: seq<bool>, n: nat)
    requires |target| == |current| && |selected| == |current| && n <= |current|
    ensures ChangedWrites(name, Edited(current, target, selected, n), target, selected, n) == []
  {
    NoWritesWhenDone(name, Edited(current, target, selected, n), target, selected, n);
  }

  /** The writing loop of keys 'b' and 'r'. */
  method IssueChangedWrites(name: string, current: seq<real>, target: seq<real>, selected: seq<bool>) returns (writes: seq<SliceWrite>)
    requires |target| == |current| && |selected| == |current|
    ensures writes == ChangedWrites(name, current, target, selected, |current|)
  {
    writes := [];
    for i := 0 to |current|
      invariant writes == ChangedWrites(name, current, target, selected, i)
    {
      if selected[i] && current[i] != target[i] {
        writes := writes + [SliceWrite(name, i + 1, 1, [target[i]])];
      }
    }
  }

  /** `np.logical_and(node_in_box, node_in_img_bbox)`. */
  function Selected(inBox: seq<bool>, inImgBbox: seq<bool>): (sel: seq<bool>)
    requires |inImgBbox| == |inBox|
    ensures |sel| == |inBox|
    ensures forall i :: 0 <= i < |sel| ==> (sel[i] <==> inBox[i] && inImgBbox[i])
  {
    seq(|inBox|, i requires 0 <= i < |inBox| => inBox[i] && inImgBbox[i])
  }

  /** Every entry selected: the reset walks over all cells. */
  function AllSelected(n: nat): (sel: seq<bool>)
    ensures |sel| == n && forall i :: 0 <= i < n ==> sel[i]
  {
    seq(n, i => true)
  }

  /** `zk_copy[idx] += compute_delta_zk(data, idx)`: the camera's bed-level
      change is added on the selected nodes only. */
  function BedTarget(zk: seq<real>, deltaZk: seq<real>, selected: seq<bool>): (t: seq<real>)
    requires |deltaZk| == |zk| && |selected| == |zk|
    ensures |t| == |zk|
    ensures forall i :: 0 <= i < |zk| ==> t[i] == if selected[i] then zk[i] + deltaZk[i] else zk[i]
  {
    seq(|zk|, i requires 0 <= i < |zk| => if selected[i] then zk[i] + deltaZk[i] else zk[i])
  }

  /** The entries of `data` the handler reads. */
  datatype EditData = EditData(
    zk: seq<real>,                  // bed level per node
    nodeInBox: seq<bool>,           // node_in_box
    nodeInImgBbox: seq<bool>,       // node_in_img_bbox
    deltaZk: seq<real>,             // compute_delta_zk, per node
    depthCells: seq<real>,          // DEPTH_CELLS, as the model now holds it
    depthCellsOriginal: seq<real>,  // depth_cells_original
    video: Grid<(real, real, real)>) // the camera frame, warped into the image, scaled to [0, 1]
  {
    /** Per-node entries belong to one mesh, per-cell entries to another. */
    predicate Consistent() {
      |nodeInBox| == |zk| && |nodeInImgBbox| == |zk| && |deltaZk| == |zk| &&
      |depthCellsOriginal| == |depthCells|
    }
  }

  /** Key 'b': write the camera bed level into the model, one node at a time,
      only where it changed. */
  function BedWrites(data: EditData): (ws: seq<SliceWrite>)
    requires data.Consistent()
  {
    var sel := Selected(data.nodeInBox, data.nodeInImgBbox);
    ChangedWrites("zk", data.zk, BedTarget(data.zk, data.deltaZk, sel), sel, |data.zk|)
  }

  /** After key 'b' the model's `zk` holds the camera bed level on the selected
      nodes and its old value everywhere else. */
  lemma BedWritesApplyDelta(data: EditData)
    requires data.Consistent()
    ensures WritesInRange(BedWrites(data), |data.zk|)
    ensures var sel := Selected(data.nodeInBox, data.nodeInImgBbox);
      ApplyWrites(data.zk, BedWrites(data)) == BedTarget(data.zk, data.deltaZk, sel)
  {
    var sel := Selected(data.nodeInBox, data.nodeInImgBbox);
    var target := BedTarget(data.zk, data.deltaZk, sel);
    ChangedWritesReachTarget("zk", data.zk, target, sel, |data.zk|);
    assert Edited(data.zk, target, sel, |data.zk|) == target;
  }

  /** Key 'r' with the bed-level variable named: every cell that differs from
      its original depth is written back. */
  function ResetWrites(depthVariable: string, data: EditData): (ws: seq<SliceWrite>)
    requires data.Consistent()
  {
    ChangedWrites(depthVariable, data.depthCells, data.depthCellsOriginal, AllSelected(|data.depthCells|), |data.depthCells|)
  }

  /** After key 'r' the model's depth variable holds the original depths again. */
  lemma ResetRestoresOriginal(depthVariable: string, data: EditData)
    requires data.Consistent()
    ensures WritesInRange(ResetWrites(depthVariable, data), |data.depthCells|)
    ensures ApplyWrites(data.depthCells, ResetWrites(depthVariable, data)) == data.depthCellsOriginal
  {
    var all := AllSelected(|data.depthCells|);
    ChangedWritesReachTarget(depthVariable, data.depthCells, data.depthCellsOriginal, all, |data.depthCells|);
    assert Edited(data.depthCells, data.depthCellsOriginal, all, |data.depthCells|) == data.depthCellsOriginal;
  }

  /** How the reset loop as written ends: it returns having written nothing,
      or raises `NameError` on the undefined name `mappings`. */
  datatype ResetOutcome = Finished(writes: seq<SliceWrite>) | NameError(name: string)

  /** The reset loop as written, from cell `i` on: the first cell that differs
      evaluates `mappings["DEPTH_CELLS"]`, which is not defined anywhere. */
  function ResetAsWritten(depthCells: seq<real>, original: seq<real>, i: nat): (o: ResetOutcome)
    requires |original| <= |depthCells| && i <= |original|
    ensures o.NameError? <==> exists k :: i <= k < |original| && depthCells[k] != original[k]
    ensures o.NameError? ==> o.name == "mappings"
    ensures o.Finished? ==> o.writes == []
    decreases |original| - i
  {
    if i == |original| then Finished([])
    else if depthCells[i] != original[i] then NameError("mappings")
    else ResetAsWritten(depthCells, original, i + 1)
  }

  /** As written, 'r' never restores anything: it raises exactly when the
      corrected reset has at least one write to make, and before making it. */
  lemma ResetAsWrittenNeverRestores(depthVariable: string, data: EditData)
    requires data.Consistent()
    ensures ResetAsWritten(data.depthCells, data.depthCellsOriginal, 0).NameError? <==>
      ResetWrites(depthVariable, data) != []
  {
    var ws := ResetWrites(depthVariable, data);
    var all := AllSelected(|data.depthCells|);
    ChangedWritesComplete(depthVariable, data.depthCells, data.depthCellsOriginal, all, |data.depthCells|);
    if ws != [] {
      var k := ws[0].start - 1;
      assert data.depthCells[k] != data.depthCellsOriginal[k];
    }
  }

  /** The whole handler. Non-key events change nothing; 'b' and 'r' return the
      writes they make on the model; 'p' replaces the particle buffer by the
      opaque camera frame; the presets and 'c' change the visible layers; 'q'
      asks to quit. Keys are compared one by one, so at most one branch acts. */
  method ProcessEvents(evt: Event, data: EditData, vis: Visualization, depthVariable: string)
    returns (writes: seq<SliceWrite>, quit: bool)
    requires data.Consistent() && IsGrid(data.video, vis.height, vis.width)
    modifies vis`layers, vis`lic
    ensures evt.OtherEvent? ==> writes == [] && !quit && vis.layers == old(vis.layers) && vis.lic == old(vis.lic)
    ensures evt.KeyPress? ==> vis.layers == AfterKey(old(vis.layers), evt.key)
    ensures evt == KeyPress("b") ==> writes == BedWrites(data)
    ensures evt == KeyPress("r") ==> writes == ResetWrites(depthVariable, data)
    ensures evt != KeyPress("b") && evt != KeyPress("r") ==> writes == []
    ensures quit <==> evt == KeyPress("q")
    ensures evt == KeyPress("p") ==> vis.Valid() && fresh(vis.lic) && Contents(vis.lic) == OpaqueFrame(data.video)
    ensures evt != KeyPress("p") ==> vis.lic == old(vis.lic)
  {
    writes, quit := [], false;
    if evt.OtherEvent? {
      return;
    }
    var key := evt.key;
    if key == "b" {
      var sel := Selected(data.nodeInBox, data.nodeInImgBbox);
      writes := IssueChangedWrites("zk", data.zk, BedTarget(data.zk, data.deltaZk, sel), sel);
    }
    if key == "r" {
      writes := IssueChangedWrites(depthVariable, data.depthCells, data.depthCellsOriginal, AllSelected(|data.depthCells|));
    }
    if key == "p" {
      vis.ResetFromVideo(data.video);
    }
    vis.layers := AfterKey(vis.layers, key);
    if key == "q" {
      quit := true;
    }
  }
}
