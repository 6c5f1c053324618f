/**
 * The editor's global state in `room-arranger.js`: the objects placed in the room, the
 * selection, the gizmo mode, the orbit-drag flag and the grid and wall toggles, with the
 * handlers that change them. Scene nodes are identified by number; the scene graph the
 * click handler walks is given as a parent map, and the raycast as the node it hit first.
 */
module Editor {
  import opened Wrappers
  import opened Catalog
  import opened Placement

  type NodeId = nat

  datatype GizmoMode = Translate | Rotate | Scale

  /** What a placed node shows: the loaded glTF scene, or the placeholder box. */
  datatype Shape = GltfScene | Placeholder(size: Size, hue: Option<nat>)

  /** An entry of `placedObjects`: a root node with its `userData.modelDef`. */
  datatype PlacedObject = PlacedObject(id: NodeId, def: ModelDef, shape: Shape)

  function Ids(placed: seq<PlacedObject>): set<NodeId>
  {
    set o | o in placed :: o.id
  }

  /** No node is placed twice. */
  predicate DistinctIds(placed: seq<PlacedObject>)
  {
    forall i, j :: 0 <= i < j < |placed| ==> placed[i].id != placed[j].id
  }

  /** `placedObjects.filter(o => o !== obj)`. */
  function Without(placed: seq<PlacedObject>, id: NodeId): seq<PlacedObject>
  {
    if placed == [] then []
    else (if placed[0].id == id then [] else [placed[0]]) + Without(placed[1..], id)
  }

  /** With distinct ids, removing a placed node drops exactly its entry and keeps the others in order. */
  lemma {:induction false} WithoutRemovesOne(placed: seq<PlacedObject>, k: nat)
    requires DistinctIds(placed) && k < |placed|
    ensures Without(placed, placed[k].id) == placed[..k] + placed[k + 1..]
  {
    var id := placed[k].id;
    if k == 0 {
      assert forall j :: 0 <= j < |placed[1..]| ==> placed[1..][j] == placed[j + 1];
      WithoutAbsent(placed[1..], id);
      assert placed[..0] + placed[1..] == placed[1..];
    } else {
      WithoutRemovesOne(placed[1..], k - 1);
      assert placed[1..][..k - 1] + placed[1..][k..] == placed[1..k] + placed[k + 1..];
      assert placed[..k] + placed[k + 1..] == [placed[0]] + (placed[1..k] + placed[k + 1..]);
    }
  }

  /** Removing a node that is not placed changes nothing. */
  lemma {:induction false} WithoutAbsent(placed: seq<PlacedObject>, id: NodeId)
    requires forall j :: 0 <= j < |placed| ==> placed[j].id != id
    ensures Without(placed, id) == placed
  {
    if placed != [] {
      assert forall j :: 0 <= j < |placed[1..]| ==> placed[1..][j] == placed[j + 1];
      WithoutAbsent(placed[1..], id);
      assert placed == [placed[0]] + placed[1..];
    }
  }

  /** Deleting the entry of a placed node keeps the others distinct and removes just that node. */
  lemma WithoutKeepsDistinct(placed: seq<PlacedObject>, k: nat)
    requires DistinctIds(placed) && k < |placed|
    ensures DistinctIds(Without(placed, placed[k].id))
    ensures Ids(Without(placed, placed[k].id)) == Ids(placed) - {placed[k].id}
  {
    WithoutRemovesOne(placed, k);
    RemoveAtDistinct(placed, k);
    RemoveAtIds(placed, k);
  }

  lemma RemoveAtDistinct(placed: seq<PlacedObject>, k: nat)
    requires DistinctIds(placed) && k < |placed|
    ensures DistinctIds(placed[..k] + placed[k + 1..])
  {
    var rest := placed[..k] + placed[k + 1..];
    assert forall i :: 0 <= i < |rest| ==> rest[i] == placed[if i < k then i else i + 1];
  }

  lemma RemoveAtIds(placed: seq<PlacedObject>, k: nat)
    requires DistinctIds(placed) && k < |placed|
    ensures Ids(placed[..k] + placed[k + 1..]) == Ids(placed) - {placed[k].id}
  {
    var rest := placed[..k] + placed[k + 1..];
    assert forall i :: 0 <= i < |rest| ==> rest[i] == placed[if i < k then i else i + 1];
    forall x | x in Ids(rest) ensures x in Ids(placed) - {placed[k].id} {
      var i :| 0 <= i < |rest| && rest[i].id == x;
    }
    forall x | x in Ids(placed) - {placed[k].id} ensures x in Ids(rest) {
      var j :| 0 <= j < |placed| && placed[j].id == x;
      assert rest[if j < k then j else j - 1].id == x;
    }
  }

  // The scene graph seen by the click handler

  /**
   * `rank` witnesses that following `.parent` from any node ends: every parent has a smaller
   * rank than its child (the scene graph is a tree).
   */
  predicate Ranked(parent: map<NodeId, NodeId>, rank: map<NodeId, nat>)
  {
    forall n :: n in parent ==> n in rank && parent[n] in rank && rank[parent[n]] < rank[n]
  }

  /**
   * The node the loop `while (obj.parent && !placedObjects.includes(obj)) obj = obj.parent`
   * stops at, starting from `n`.
   */
  ghost function PlacedRoot(ids: set<NodeId>, parent: map<NodeId, NodeId>, rank: map<NodeId, nat>, n: NodeId): (r: NodeId)
    requires Ranked(parent, rank)
    ensures r in ids || r !in parent
    ensures n in ids || n !in parent ==> r == n
    decreases if n in rank then rank[n] else 0
  {
    if n in parent && n !in ids then PlacedRoot(ids, parent, rank, parent[n]) else n
  }

  /** The ancestor of `n` that is `k` parent steps up, if the chain is that long. */
  function Ancestor(parent: map<NodeId, NodeId>, n: NodeId, k: nat): Option<NodeId>
    decreases k
  {
    if k == 0 then Some(n) else if n in parent then Ancestor(parent, parent[n], k - 1) else None
  }

  /** The number of parent steps the walk takes from `n`. */
  ghost function RootSteps(ids: set<NodeId>, parent: map<NodeId, NodeId>, rank: map<NodeId, nat>, n: NodeId): nat
    requires Ranked(parent, rank)
    decreases if n in rank then rank[n] else 0
  {
    if n in parent && n !in ids then 1 + RootSteps(ids, parent, rank, parent[n]) else 0
  }

  /**
   * The walk stops at the nearest ancestor-or-self of the hit node that is placed, or at the
   * topmost ancestor when none on the way is placed.
   */
  lemma {:induction false} PlacedRootIsNearest(ids: set<NodeId>, parent: map<NodeId, NodeId>, rank: map<NodeId, nat>, n: NodeId)
    requires Ranked(parent, rank)
    ensures Ancestor(parent, n, RootSteps(ids, parent, rank, n)) == Some(PlacedRoot(ids, parent, rank, n))
    ensures forall j: nat :: j < RootSteps(ids, parent, rank, n) ==>
      Ancestor(parent, n, j).Some? && Ancestor(parent, n, j).value !in ids
    decreases if n in rank then rank[n] else 0
  {
    if n in parent && n !in ids {
      var p := parent[n];
      PlacedRootIsNearest(ids, parent, rank, p);
      forall j: nat | j < RootSteps(ids, parent, rank, n)
        ensures Ancestor(parent, n, j).Some? && Ancestor(parent, n, j).value !in ids
      {
        if j > 0 {
          assert Ancestor(parent, n, j) == Ancestor(parent, p, j - 1);
        }
      }
    }
  }

  // Keyboard shortcuts

  datatype KeyCommand = NoCommand | SetMode(mode: GizmoMode) | DeleteCommand | DeselectCommand

  /** What `onKeyDown` does for a key pressed while focus is on an element with tag `targetTag`. */
  function KeyCommandOf(targetTag: string, key: string): KeyCommand
  {
    if targetTag == "INPUT" then NoCommand
    else match key
      case "w" => SetMode(Translate)
      case "W" => SetMode(Translate)
      case "e" => SetMode(Rotate)
      case "E" => SetMode(Rotate)
      case "r" => SetMode(Scale)
      case "R" => SetMode(Scale)
      case "Delete" => DeleteCommand
      case "Backspace" => DeleteCommand
      case "Escape" => DeselectCommand
      case _ => NoCommand
  }

  /**
   * Keys typed into a text field are ignored, the gizmo letters work in either case, and
   * only the listed keys do anything.
   */
  lemma KeyCommands(targetTag: string, key: string)
    ensures targetTag == "INPUT" ==> KeyCommandOf(targetTag, key) == NoCommand
    ensures KeyCommandOf(targetTag, key) != NoCommand ==>
      key in ["w", "W", "e", "E", "r", "R", "Delete", "Backspace", "Escape"]
    ensures targetTag != "INPUT" ==>
      KeyCommandOf(targetTag, "w") == KeyCommandOf(targetTag, "W") == SetMode(Translate) &&
      KeyCommandOf(targetTag, "e") == KeyCommandOf(targetTag, "E") == SetMode(Rotate) &&
      KeyCommandOf(targetTag, "r") == KeyCommandOf(targetTag, "R") == SetMode(Scale) &&
      KeyCommandOf(targetTag, "Delete") == KeyCommandOf(targetTag, "Backspace") == DeleteCommand &&
      KeyCommandOf(targetTag, "Escape") == DeselectCommand
  {
  }

  /** The mouse buttons `onCanvasMouseDown` distinguishes (`e.button`). */
  datatype Button = LeftButton | MiddleButton | RightButton | OtherButton

  class Editor {
    /** `placedObjects`. */
    var placed: seq<PlacedObject>
    /** `selectedObject`, `None` for null. */
    var selected: Option<NodeId>
    var gizmoMode: GizmoMode
    var isOrbitDragging: bool
    /** `orbit.isRMB` and `orbit.isMid`. */
    var rightButtonDown: bool
    var middleButtonDown: bool
    var gridVisible: bool
    var wallsVisible: bool
    /** The next node number the scene hands out: every placed node is older. */
    var nextId: NodeId

    /** The selection is null or a placed object, and placed objects are distinct scene nodes. */
    predicate Valid()
      reads this
    {
      (forall k :: 0 <= k < |placed| ==> placed[k].id < nextId) &&
      DistinctIds(placed) &&
      (selected.Some? ==> selected.value in Ids(placed))
    }

    /** The globals as declared at the top of the script. */
    constructor ()
      ensures Valid()
      ensures placed == [] && selected == None && gizmoMode == Translate
      ensures !isOrbitDragging && !rightButtonDown && !middleButtonDown
      ensures gridVisible && wallsVisible
    {
      placed := [];
      selected := None;
      gizmoMode := Translate;
      isOrbitDragging := false;
      rightButtonDown := false;
      middleButtonDown := false;
      gridVisible := true;
      wallsVisible := true;
      nextId := 0;
    }

    /** `selectObject(obj)`; every caller passes a placed object. */
    method SelectObject(id: NodeId)
      requires Valid() && id in Ids(placed)
      modifies this`selected
      ensures Valid() && selected == Some(id)
    {
      selected := Some(id);
    }

    /** `deselectObject()`. */
    method DeselectObject()
      modifies this`selected
      ensures selected == None
    {
      selected := None;
    }

    /** Appends a fresh node to `placedObjects` and selects it (lines 583-584 and 613-614). */
    method Place(def: ModelDef, shape: Shape) returns (id: NodeId)
      requires Valid()
      modifies this`placed, this`selected, this`nextId
      ensures Valid()
      ensures id !in Ids(old(placed))
      ensures placed == old(placed) + [PlacedObject(id, def, shape)]
      ensures selected == Some(id)
    {
      id := nextId;
      nextId := nextId + 1;
      placed := placed + [PlacedObject(id, def, shape)];
      assert id in Ids(placed);
      SelectObject(id);
    }

    /** `addPlaceholderBox(modelDef)`. */
    method AddPlaceholderBox(def: ModelDef) returns (id: NodeId)
      requires Valid()
      modifies this`placed, this`selected, this`nextId
      ensures Valid()
      ensures id !in Ids(old(placed))
      ensures placed == old(placed) + [PlacedObject(id, def, Placeholder(PlaceholderSize(def.category), Hue(def.name)))]
      ensures selected == Some(id)
    {
      id := Place(def, Placeholder(PlaceholderSize(def.category), Hue(def.name)));
    }

    /**
     * `addModelToScene(modelDef)`: nothing while the loader is not ready; otherwise the loaded
     * model, or the placeholder box when loading fails.
     */
    method AddModelToScene(def: ModelDef, loaderReady: bool, loadSucceeded: bool) returns (added: Option<NodeId>)
      requires Valid()
      modifies this`placed, this`selected, this`nextId
      ensures Valid()
      ensures !loaderReady ==> added == None && placed == old(placed) && selected == old(selected)
      ensures loaderReady ==> added.Some? && added.value !in Ids(old(placed)) && selected == added
      ensures loaderReady && loadSucceeded ==> placed == old(placed) + [PlacedObject(added.value, def, GltfScene)]
      ensures loaderReady && !loadSucceeded ==>
        placed == old(placed) + [PlacedObject(added.value, def, Placeholder(PlaceholderSize(def.category), Hue(def.name)))]
    {
      if !loaderReady {
        return None;
      }
      var id;
      if loadSucceeded {
        id := Place(def, GltfScene);
      } else {
        id := AddPlaceholderBox(def);
      }
      return Some(id);
    }

    /** `deleteSelected()`: removes the selected object from `placedObjects` and deselects. */
    method DeleteSelected()
      requires Valid()
      modifies this`placed, this`selected
      ensures Valid() && selected == None
      ensures old(selected) == None ==> placed == old(placed)
      ensures old(selected).Some? ==>
        exists k :: 0 <= k < |old(placed)| && old(placed)[k].id == old(selected).value
          && placed == old(placed)[..k] + old(placed)[k + 1..]
    {
      if selected.None? {
        return;
      }
      var id := selected.value;
      var k :| 0 <= k < |placed| && placed[k].id == id;
      WithoutKeepsDistinct(placed, k);
      WithoutRemovesOne(placed, k);
      placed := Without(placed, id);
      DeselectObject();
    }

    /**
     * `onCanvasClick`: `hit` is the first object the ray meets (`None` when it meets none) and
     * `floorHit` whether it meets the floor.
     */
    method OnCanvasClick(parent: map<NodeId, NodeId>, ghost rank: map<NodeId, nat>, hit: Option<NodeId>, floorHit: bool)
      requires Valid() && Ranked(parent, rank)
      modifies this`isOrbitDragging, this`selected
      ensures Valid() && !isOrbitDragging
      ensures old(isOrbitDragging) ==> selected == old(selected)
      ensures !old(isOrbitDragging) && hit.Some? ==>
        var r := PlacedRoot(Ids(placed), parent, rank, hit.value);
        selected == if r in Ids(placed) then Some(r) else old(selected)
      ensures !old(isOrbitDragging) && hit.None? ==>
        selected == if floorHit then None else old(selected)
    {
      if isOrbitDragging {
        isOrbitDragging := false;
        return;
      }
      if hit.Some? {
        var obj := hit.value;
        while obj in parent && obj !in Ids(placed)
          invariant PlacedRoot(Ids(placed), parent, rank, obj) == PlacedRoot(Ids(placed), parent, rank, hit.value)
          decreases if obj in rank then rank[obj] else 0
        {
          obj := parent[obj];
        }
        if obj in Ids(placed) {
          SelectObject(obj);
        }
      } else if floorHit {
        DeselectObject();
      }
    }

    /** `setGizmoMode(mode)`. */
    method SetGizmoMode(mode: GizmoMode)
      modifies this`gizmoMode
      ensures gizmoMode == mode
    {
      gizmoMode := mode;
    }

    /** The grid toggle button. */
    method ToggleGrid()
      modifies this`gridVisible
      ensures gridVisible == !old(gridVisible)
    {
      gridVisible := !gridVisible;
    }

    /** The walls toggle button. */
    method ToggleWalls()
      modifies this`wallsVisible
      ensures wallsVisible == !old(wallsVisible)
    {
      wallsVisible := !wallsVisible;
    }

    /** Pressing either toggle twice restores its flag. */
    method ToggleTwice(walls: bool)
      modifies this`gridVisible, this`wallsVisible
      ensures gridVisible == old(gridVisible) && wallsVisible == old(wallsVisible)
    {
      if walls {
        ToggleWalls();
        ToggleWalls();
      } else {
        ToggleGrid();
        ToggleGrid();
      }
    }

    /** `onKeyDown(e)` for a key `key` pressed on an element with tag `targetTag`. */
    method OnKeyDown(targetTag: string, key: string)
      requires Valid()
      modifies this`gizmoMode, this`placed, this`selected
      ensures Valid()
      ensures KeyCommandOf(targetTag, key).SetMode? ==>
        gizmoMode == KeyCommandOf(targetTag, key).mode && placed == old(placed) && selected == old(selected)
      ensures KeyCommandOf(targetTag, key) == DeleteCommand ==> selected == None && gizmoMode == old(gizmoMode)
      ensures KeyCommandOf(targetTag, key) == DeleteCommand && old(selected) == None ==> placed == old(placed)
      ensures KeyCommandOf(targetTag, key) == DeleteCommand && old(selected).Some? ==>
        exists k :: 0 <= k < |old(placed)| && old(placed)[k].id == old(selected).value
          && placed == old(placed)[..k] + old(placed)[k + 1..]
      ensures KeyCommandOf(targetTag, key) == DeselectCommand ==>
        selected == None && placed == old(placed) && gizmoMode == old(gizmoMode)
      ensures KeyCommandOf(targetTag, key) == NoCommand ==>
        placed == old(placed) && selected == old(selected) && gizmoMode == old(gizmoMode)
    {
      match KeyCommandOf(targetTag, key)
      case NoCommand =>
      case SetMode(mode) => SetGizmoMode(mode);
      case DeleteCommand => DeleteSelected();
      case DeselectCommand => DeselectObject();
    }

    /** `onCanvasMouseDown`: the right button starts an orbit and clears the drag flag. */
    method OnCanvasMouseDown(button: Button)
      modifies this`rightButtonDown, this`middleButtonDown, this`isOrbitDragging
      ensures button == RightButton ==> rightButtonDown && !isOrbitDragging && middleButtonDown == old(middleButtonDown)
      ensures button == MiddleButton ==>
        middleButtonDown && rightButtonDown == old(rightButtonDown) && isOrbitDragging == old(isOrbitDragging)
      ensures button != RightButton && button != MiddleButton ==>
        rightButtonDown == old(rightButtonDown) && middleButtonDown == old(middleButtonDown)
        && isOrbitDragging == old(isOrbitDragging)
    {
      if button == RightButton {
        rightButtonDown := true;
        isOrbitDragging := false;
      }
      if button == MiddleButton {
        middleButtonDown := true;
      }
    }

    /** `onCanvasMouseMove`: an orbit that moves the pointer more than 2 pixels is a drag. */
    method OnCanvasMouseMove(dx: real, dy: real)
      modifies this`isOrbitDragging
      ensures isOrbitDragging == (old(isOrbitDragging) || (rightButtonDown && Abs(dx) + Abs(dy) > 2.0))
    {
      if rightButtonDown && Abs(dx) + Abs(dy) > 2.0 {
        isOrbitDragging := true;
      }
    }

    /** `onCanvasMouseUp`: releases both buttons but leaves the drag flag for the click that follows. */
    method OnCanvasMouseUp()
      modifies this`rightButtonDown, this`middleButtonDown
      ensures !rightButtonDown && !middleButtonDown
    {
      rightButtonDown := false;
      middleButtonDown := false;
    }

    /**
     * After a right-button orbit drag, the next click only clears the drag flag. Releasing the
     * right button sends no `click`, so that next click is the user's following left click,
     * whatever it hits.
     */
    method DragThenClick(parent: map<NodeId, NodeId>, ghost rank: map<NodeId, nat>, dx: real, dy: real, hit: Option<NodeId>, floorHit: bool)
      requires Valid() && Ranked(parent, rank) && Abs(dx) + Abs(dy) > 2.0
      modifies this`rightButtonDown, this`middleButtonDown, this`isOrbitDragging, this`selected
      ensures Valid() && selected == old(selected) && !isOrbitDragging
    {
      OnCanvasMouseDown(RightButton);
      OnCanvasMouseMove(dx, dy);
      OnCanvasMouseUp();
      OnCanvasMouseDown(LeftButton);
      OnCanvasClick(parent, rank, hit, floorHit);
    }

    /** The gizmo's `dragging-changed` listener: it ends any orbit or pan in progress. */
    method GizmoDraggingChanged()
      modifies this`rightButtonDown, this`middleButtonDown
      ensures !rightButtonDown && !middleButtonDown
    {
      rightButtonDown := false;
      middleButtonDown := false;
    }

    /** Adding a placeholder and deleting it at once leaves the placed objects as they were. */
    method AddThenDelete(def: ModelDef)
      requires Valid()
      modifies this`placed, this`selected, this`nextId
      ensures Valid() && placed == old(placed) && selected == None
    {
      var id := AddPlaceholderBox(def);
      ghost var before := placed;
      DeleteSelected();
      assert before[|before| - 1].id == id;
      DistinctLast(before, id);
    }
  }

  /** `Math.abs`. */
  function Abs(x: real): (r: real)
    ensures r >= 0.0 && (r == x || r == -x)
  {
    if x < 0.0 then -x else x
  }

  lemma DistinctLast(placed: seq<PlacedObject>, id: NodeId)
    requires DistinctIds(placed) && |placed| > 0 && placed[|placed| - 1].id == id
    ensures forall k :: 0 <= k < |placed| && placed[k].id == id ==> k == |placed| - 1
  {
  }
}
