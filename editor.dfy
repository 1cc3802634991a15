/** The point-annotation editor of the node: the list of clicked points, the
    selected marker, the instruction field and the hidden widgets that mirror
    them, and the node's save and load of that state. */
module Editor {
  import opened Maybe
  import opened Text
  import opened Geometry
  import opened RichText

  /** An entry of `pointsData`: coordinates relative to the displayed image
      and the marker number shown on the image. */
  datatype Point = Point(x: real, y: real, index: nat)

  /** Marker numbers follow positions: the point at position `i` is `i + 1`. */
  predicate Dense(ps: seq<Point>) {
    forall i :: 0 <= i < |ps| ==> ps[i].index == i + 1
  }

  /** Every point lies on the image. */
  predicate OnImage(ps: seq<Point>) {
    forall i :: 0 <= i < |ps| ==> InUnitSquare(Vec(ps[i].x, ps[i].y))
  }

  /** The points numbered by position, coordinates kept. */
  function Renumbered(ps: seq<Point>): seq<Point> {
    seq(|ps|, i requires 0 <= i < |ps| => ps[i].(index := i + 1))
  }

  /** `splice(idx, 1)`: the element at `idx` removed, if there is one. */
  function Spliced(ps: seq<Point>, idx: nat): seq<Point> {
    if idx < |ps| then ps[..idx] + ps[idx + 1..] else ps
  }

  lemma RenumberedDense(ps: seq<Point>)
    ensures |Renumbered(ps)| == |ps| && Dense(Renumbered(ps))
    ensures forall i :: 0 <= i < |ps| ==> Renumbered(ps)[i].x == ps[i].x && Renumbered(ps)[i].y == ps[i].y
    ensures Dense(ps) ==> Renumbered(ps) == ps
    ensures OnImage(ps) ==> OnImage(Renumbered(ps))
  {
  }

  /** Splicing removes exactly the element at `idx` and keeps the order of
      the others. */
  lemma SplicedRemovesOne(ps: seq<Point>, idx: nat)
    requires idx < |ps|
    ensures |Spliced(ps, idx)| == |ps| - 1
    ensures forall i :: 0 <= i < |ps| - 1 ==> Spliced(ps, idx)[i] == if i < idx then ps[i] else ps[i + 1]
    ensures multiset(Spliced(ps, idx)) + multiset{ps[idx]} == multiset(ps)
  {
    assert ps == ps[..idx] + [ps[idx]] + ps[idx + 1..];
  }

  lemma SplicedOnImage(ps: seq<Point>, idx: nat)
    requires OnImage(ps)
    ensures OnImage(Spliced(ps, idx))
  {
    if idx < |ps| {
      SplicedRemovesOne(ps, idx);
    }
  }

  /** Appending the point numbered after the last keeps the numbering
      dense; appending a point on the image keeps every point on it. */
  lemma AppendPoint(ps: seq<Point>, p: Point)
    ensures Dense(ps) && p.index == |ps| + 1 ==> Dense(ps + [p])
    ensures OnImage(ps) && InUnitSquare(Vec(p.x, p.y)) ==> OnImage(ps + [p])
  {
    assert forall i :: 0 <= i < |ps| ==> (ps + [p])[i] == ps[i];
  }

  /** A point dragged by `(dx, dy)` container pixels over display
      rectangle `r`: its coordinates move by the pixel distance scaled to the
      image and are clamped to it; its number stays. */
  function Dragged(r: Rect, p: Point, dx: real, dy: real): Point
    requires Proper(r)
  {
    Point(Clamp01(p.x + dx / r.width), Clamp01(p.y + dy / r.height), p.index)
  }

  /** A dragged point stays on the image, and so does its marker. */
  lemma DraggedStaysOnImage(r: Rect, p: Point, dx: real, dy: real)
    requires Proper(r)
    ensures var q := Dragged(r, p, dx, dy);
      q.index == p.index && InUnitSquare(Vec(q.x, q.y)) && InDisplay(r, ToPixel(r, Vec(q.x, q.y)))
  {
    var q := Dragged(r, p, dx, dy);
    MarkerOnImage(r, Vec(q.x, q.y));
  }

  /** Replacing a point by one with the same number on the image keeps the
      numbering dense and every point on the image. */
  lemma ReplacePoint(ps: seq<Point>, idx: nat, q: Point)
    requires idx < |ps|
    ensures q.index == ps[idx].index && Dense(ps) ==> Dense(ps[idx := q])
    ensures InUnitSquare(Vec(q.x, q.y)) && OnImage(ps) ==> OnImage(ps[idx := q])
  {
  }

  // ------------------------------------------------------- click targets

  /** What an element on the path from a click's target up to the document
      root is, as far as the click handler cares. */
  datatype Target = MarkerElement | PreviewContainer | OtherElement

  /** The click hit a marker: a marker lies on `path` before the preview
      container is reached. */
  predicate OnMarker(path: seq<Target>) {
    exists i :: 0 <= i < |path| && path[i] == MarkerElement && PreviewContainer !in path[..i]
  }

  /** The walk up the parents in `_handleImageClick`. */
  method ClickedOnMarker(path: seq<Target>) returns (hit: bool)
    ensures hit == OnMarker(path)
  {
    var i := 0;
    while i < |path| && path[i] != PreviewContainer
      invariant 0 <= i <= |path|
      invariant forall j :: 0 <= j < i ==> path[j] == OtherElement
    {
      if path[i] == MarkerElement {
        assert PreviewContainer !in path[..i];
        return true;
      }
      i := i + 1;
    }
    forall j | 0 <= j < |path| && path[j] == MarkerElement ensures PreviewContainer in path[..j] {
      assert i < j && path[..j][i] == PreviewContainer;
    }
    return false;
  }

  // ----------------------------------------------------------- markers

  /** A drawn marker: its centre in container pixels and its label. */
  datatype MarkerView = MarkerView(pos: Vec, caption: string)

  /** What `_renderMarkers` draws for the points in display rectangle `r`. */
  function MarkerViews(r: Rect, ps: seq<Point>): seq<MarkerView> {
    seq(|ps|, i requires 0 <= i < |ps| => MarkerView(ToPixel(r, Vec(ps[i].x, ps[i].y)), CircledNumber(ps[i].index)))
  }

  /** Markers of points on the image are drawn on the image, and with dense
      numbering the marker at position `i` reads `i + 1`. */
  lemma MarkersDrawn(r: Rect, ps: seq<Point>)
    requires Proper(r)
    ensures |MarkerViews(r, ps)| == |ps|
    ensures OnImage(ps) ==> forall i :: 0 <= i < |ps| ==> InDisplay(r, MarkerViews(r, ps)[i].pos)
    ensures Dense(ps) ==> forall i :: 0 <= i < |ps| ==> DigitsValue(MarkerViews(r, ps)[i].caption) == i + 1
  {
    if OnImage(ps) {
      forall i | 0 <= i < |ps| ensures InDisplay(r, MarkerViews(r, ps)[i].pos) {
        MarkerOnImage(r, Vec(ps[i].x, ps[i].y));
      }
    }
    forall i | 0 <= i < |ps| ensures DigitsValue(MarkerViews(r, ps)[i].caption) == ps[i].index {
      CircledNumberValue(ps[i].index);
    }
  }

  // ------------------------------------------------------ saved workflow

  /** A saved `promptText`: missing (`undefined` or `null`), a string, or
      another JSON value, of which only its truthiness matters. */
  datatype SavedText = Absent | Str(s: string) | NonString(truthy: bool)

  /** The node's part of a saved workflow.  `None` stands for a points value
      that is missing or not an array. */
  datatype SavedNode = SavedNode(pointsData: Option<seq<Point>>, promptText: SavedText, currentImageName: string)

  /** The points `configure` takes over: only a non-empty saved array. */
  function RestoredPoints(d: SavedNode): (ps: seq<Point>)
    ensures ps == [] || d.pointsData == Some(ps)
    ensures d.pointsData.Some? && d.pointsData.value != [] ==> ps == d.pointsData.value
  {
    if d.pointsData.Some? && |d.pointsData.value| > 0 then d.pointsData.value else []
  }

  /** `configure` calls `trim` on a truthy saved prompt; on anything but a
      string that throws a `TypeError`. */
  predicate PromptThrows(d: SavedNode) {
    d.promptText.NonString? && d.promptText.truthy
  }

  predicate HasPromptText(d: SavedNode) {
    d.promptText.Str? && Trim(JsSpace, d.promptText.s) != ""
  }

  /** The instruction text `configure` takes over: the saved text verbatim
      unless it is missing or blank. */
  function RestoredPrompt(d: SavedNode): (t: string)
    ensures t == "" || d.promptText == Str(t)
    ensures HasPromptText(d) <==> Trim(JsSpace, t) != ""
    ensures !HasPromptText(d) ==> t == ""
  {
    if HasPromptText(d) then d.promptText.s else ""
  }

  /** Saving and loading keeps the points, and keeps any instruction text
      the field produced (such text is already trimmed). */
  lemma SaveLoadRoundTrip(ps: seq<Point>, ns: seq<RNode>, name: string)
    ensures !PromptThrows(SavedNode(Some(ps), Str(PromptOf(ns)), name))
    ensures RestoredPoints(SavedNode(Some(ps), Str(PromptOf(ns)), name)) == ps
    ensures RestoredPrompt(SavedNode(Some(ps), Str(PromptOf(ns)), name)) == PromptOf(ns)
  {
    TrimIdempotent(JsSpace, EmitIn("", ns));
  }

  /** After a load the field serialises to the saved instruction text again,
      as long as no saved marker number has a leading zero. */
  lemma ReloadedPromptStable(ns: seq<RNode>, d: SavedNode)
    requires d.promptText == Str(PromptOf(ns)) && NoPaddedMarker(PromptOf(ns))
    ensures PromptOf(Restore(RestoredPrompt(d))) == PromptOf(ns)
  {
    var t := PromptOf(ns);
    TrimIdempotent(JsSpace, EmitIn("", ns));
    if HasPromptText(d) {
      SerializeRestored(t);
    } else {
      assert t == "";
      assert Restore("") == [];
    }
  }

  // ---------------------------------------------------------- the node

  /** Every field of the node the model tracks, for stating what a method
      changes and what it leaves alone. */
  datatype NodeState = NodeState(
    points: seq<Point>,
    selected: Option<nat>,
    imageShown: bool,
    naturalWidth: nat,
    naturalHeight: nat,
    content: seq<RNode>,
    promptText: string,
    pointsWidget: seq<Point>,
    promptWidget: string,
    imageName: string,
    isNewNode: bool)

  class PointPromptNode {
    /** `pointsData`. */
    var points: seq<Point>
    /** `selectedMarkerIndex`; `None` for both `undefined` and `null`. */
    var selected: Option<nat>
    /** The image element is displayed. */
    var imageShown: bool
    /** `naturalWidth`, `naturalHeight` of the image element. */
    var naturalWidth: nat
    var naturalHeight: nat
    /** The children of the editable instruction field. */
    var content: seq<RNode>
    var promptText: string
    /** The hidden `points_data` widget; it holds the JSON of this list. */
    var pointsWidget: seq<Point>
    /** The hidden `prompt_text` widget. */
    var promptWidget: string
    /** The value of the `image` widget. */
    var imageName: string
    var isNewNode: bool

    function State(): NodeState
      reads this
    {
      NodeState(points, selected, imageShown, naturalWidth, naturalHeight, content,
                promptText, pointsWidget, promptWidget, imageName, isNewNode)
    }

    /** `_getImageDisplayInfo` for the current image. */
    function Display(): (r: Rect)
      reads this`naturalWidth, this`naturalHeight
      ensures Proper(r)
    {
      DisplayInfo(naturalWidth, naturalHeight)
    }

    /** `onNodeCreated`: no points, empty field, no image shown; the image
        widget holds whatever file the host preselected. */
    constructor(image: string)
      ensures State() == NodeState([], None, false, 0, 0, [], "", [], "", image, true)
    {
      points := [];
      selected := None;
      imageShown := false;
      naturalWidth := 0;
      naturalHeight := 0;
      content := [];
      promptText := "";
      pointsWidget := [];
      promptWidget := "";
      imageName := image;
      isNewNode := true;
    }

    /** `_updatePromptData`: serialises the field, trims it, and stores the
        result in the node and in the `prompt_text` widget. */
    method UpdatePromptData()
      modifies this
      ensures State() == old(State()).(promptText := PromptOf(content), promptWidget := PromptOf(content))
    {
      var text := Serialize(content, "");
      promptText := Trim(JsSpace, text);
      promptWidget := promptText;
    }

    /** `_updatePointsWidget`. */
    method UpdatePointsWidget()
      modifies this
      ensures State() == old(State()).(pointsWidget := points)
    {
      pointsWidget := points;
    }

    /** `_loadImage` up to the start of the download. */
    method LoadImage(filename: string)
      modifies this
      ensures State() == if filename == "" then old(State()) else old(State()).(imageShown := true)
    {
      if filename != "" {
        imageShown := true;
      }
    }

    /** The image's `onload`: its natural size becomes known and every
        marker is cleared. */
    method ImageLoaded(width: nat, height: nat)
      modifies this
      ensures var c := RemoveTagsIn(old(content), AllTags);
        State() == old(State()).(naturalWidth := width, naturalHeight := height, points := [], selected := None,
                                 content := c, pointsWidget := [], promptText := PromptOf(c), promptWidget := PromptOf(c))
    {
      naturalWidth := width;
      naturalHeight := height;
      ClearAllMarkers();
    }

    /** The image's `onerror`. */
    method ImageLoadFailed()
      modifies this
      ensures State() == old(State()).(imageShown := false)
    {
      imageShown := false;
    }

    /** `_insertMarkerTag`: a tag for `index` at the caret, or at the end
        of the field when the caret is elsewhere. */
    method InsertMarkerTag(index: nat, caret: Caret)
      requires CaretFits(content, caret)
      modifies this
      ensures var c := InsertTag(old(content), caret, index);
        State() == old(State()).(content := c, promptText := PromptOf(c), promptWidget := PromptOf(c))
    {
      content := InsertTag(content, caret, index);
      UpdatePromptData();
    }

    /** `_handleImageClick`, given the path from the click's target up to
        the root, the click in container coordinates, and the caret.  A
        click on a marker, with no image, or off the displayed image changes
        nothing; any other click appends one point, numbered after the last,
        and inserts its tag. */
    method HandleImageClick(path: seq<Target>, click: Vec, caret: Caret) returns (added: bool)
      requires CaretFits(content, caret)
      modifies this
      ensures added == (!OnMarker(path) && old(imageShown) && InDisplay(old(Display()), click))
      ensures !added ==> State() == old(State())
      ensures added ==>
        var n := ToNormalized(old(Display()), click);
        var p := Point(n.x, n.y, |old(points)| + 1);
        var c := InsertTag(old(content), caret, |old(points)| + 1);
        State() == old(State()).(points := old(points) + [p], pointsWidget := old(points) + [p],
                                 content := c, promptText := PromptOf(c), promptWidget := PromptOf(c))
      ensures added ==> InUnitSquare(Vec(points[|points| - 1].x, points[|points| - 1].y))
      ensures old(Dense(points)) ==> Dense(points)
      ensures old(OnImage(points)) ==> OnImage(points)
    {
      var hit := ClickedOnMarker(path);
      if hit || !imageShown {
        return false;
      }
      var r := Display();
      if !InDisplay(r, click) {
        return false;
      }
      var rel := ToNormalized(r, click);
      InDisplayIffUnit(r, click);
      var p := Point(rel.x, rel.y, |points| + 1);
      AppendPoint(points, p);
      AddPoint(p, caret);
      added := true;
    }

    /** The part of `_handleImageClick` after the click was accepted: the
        point is appended, its tag inserted, and both widgets updated. */
    method AddPoint(p: Point, caret: Caret)
      requires CaretFits(content, caret) && p.index == |points| + 1
      modifies this
      ensures var c := InsertTag(old(content), caret, p.index);
        State() == old(State()).(points := old(points) + [p], pointsWidget := old(points) + [p],
                                 content := c, promptText := PromptOf(c), promptWidget := PromptOf(c))
    {
      points := points + [p];
      InsertMarkerTag(p.index, caret);
      UpdatePointsWidget();
      UpdatePromptData();
    }

    /** `_selectMarker`. */
    method SelectMarker(idx: nat)
      modifies this
      ensures State() == old(State()).(selected := Some(idx))
    {
      selected := Some(idx);
    }

    /** One `mousemove` while dragging the marker of the point at `idx`:
        the movement (in container pixels) moves the point, clamped to the
        image; the result is the marker's new centre.  Nothing else
        changes; the widget is updated when the button is released. */
    method DragMove(idx: nat, deltaX: real, deltaY: real) returns (marker: Vec)
      requires idx < |points|
      modifies this
      ensures var moved := Dragged(old(Display()), old(points[idx]), deltaX, deltaY);
        && State() == old(State()).(points := old(points)[idx := moved])
        && marker == ToPixel(old(Display()), Vec(moved.x, moved.y))
      ensures InDisplay(Display(), marker)
      ensures old(Dense(points)) ==> Dense(points)
      ensures old(OnImage(points)) ==> OnImage(points)
    {
      var r := Display();
      var moved := Dragged(r, points[idx], deltaX, deltaY);
      DraggedStaysOnImage(r, points[idx], deltaX, deltaY);
      ReplacePoint(points, idx, moved);
      points := points[idx := moved];
      marker := ToPixel(r, Vec(moved.x, moved.y));
      assert Display() == r;
    }

    /** The `mouseup` that ends a drag. */
    method DragEnd()
      modifies this
      ensures State() == old(State()).(pointsWidget := points)
    {
      UpdatePointsWidget();
    }

    /** The `forEach` that renumbers the points by position. */
    method RenumberPoints()
      modifies this
      ensures State() == old(State()).(points := Renumbered(old(points)))
    {
      var i := 0;
      while i < |points|
        invariant 0 <= i <= |points| == |old(points)|
        invariant forall j :: 0 <= j < |points| ==> points[j] == if j < i then old(points)[j].(index := j + 1) else old(points)[j]
        invariant State() == old(State()).(points := points)
      {
        points := points[i := points[i].(index := i + 1)];
        i := i + 1;
      }
    }

    /** `_updateTagNumbers`. */
    method UpdateTagNumbers()
      modifies this
      ensures EraseIn(content) == EraseIn(old(content)) && |TagsIn(content)| == |TagsIn(old(content))|
      ensures CountsUp(TagsIn(content))
      ensures CountsUp(TagsIn(old(content))) ==> content == old(content)
      ensures State() == old(State()).(content := content)
    {
      content := RenumberTags(content);
    }

    /** `_deleteSelectedMarker`.  With no selection nothing happens.  With a
        selection that names a point, that point goes, the others are
        renumbered by position, the tags of the removed point's number go,
        the remaining tags are renumbered 1.. in document order, and the
        selection is cleared.  A selection past the end of the list (left
        over from before a load) renumbers the points and then, if the field
        holds any tag, fails when reading the missing point's number:
        `completed` is false and nothing further changes. */
    method DeleteSelectedMarker() returns (completed: bool)
      modifies this
      ensures old(selected).None? ==> completed && State() == old(State())
      ensures old(selected).Some? && old(selected).value < old(|points|) ==>
        var idx := old(selected).value;
        var c := RemoveTagsIn(old(content), TagsNumbered(old(points)[idx].index));
        var ps := Renumbered(Spliced(old(points), idx));
        && completed
        && EraseIn(content) == EraseIn(c) && |TagsIn(content)| == |TagsIn(c)| && CountsUp(TagsIn(content))
        && State() == old(State()).(points := ps, pointsWidget := ps, selected := None, content := content,
                                    promptText := PromptOf(content), promptWidget := PromptOf(content))
      ensures old(selected).Some? && old(selected).value >= old(|points|) ==>
        var ps := Renumbered(old(points));
        && completed == (TagsIn(old(content)) == [])
        && State() == if completed
          then old(State()).(points := ps, pointsWidget := ps, selected := None,
                             promptText := PromptOf(old(content)), promptWidget := PromptOf(old(content)))
          else old(State()).(points := ps)
      ensures old(selected).Some? ==> Dense(points)
      ensures old(OnImage(points)) ==> OnImage(points)
    {
      if selected.None? {
        return true;
      }
      var idx := selected.value;
      var found := idx < |points|;
      var deletedIndex := if found then points[idx].index else 0;
      if OnImage(points) {
        SplicedOnImage(points, idx);
      }
      if found {
        points := points[..idx] + points[idx + 1..];
      }
      RenumberPoints();
      RenumberedDense(old(Spliced(points, idx)));
      if !found && TagsIn(content) != [] {
        return false;
      }
      if found {
        content := RemoveTagsIn(content, TagsNumbered(deletedIndex));
      }
      UpdateTagNumbers();
      selected := None;
      UpdatePointsWidget();
      UpdatePromptData();
      completed := true;
    }

    /** `_clearAllMarkers`: no points, no selection, no tags; every text
        node stays. */
    method ClearAllMarkers()
      modifies this
      ensures var c := RemoveTagsIn(old(content), AllTags);
        State() == old(State()).(points := [], selected := None, content := c, pointsWidget := [],
                                 promptText := PromptOf(c), promptWidget := PromptOf(c))
      ensures TagsIn(content) == [] && TextsIn(content) == TextsIn(old(content))
    {
      points := [];
      selected := None;
      content := RemoveTagsIn(content, AllTags);
      UpdatePointsWidget();
      UpdatePromptData();
    }

    /** The field's `input` event after the user edited its content. */
    method EditContent(edited: seq<RNode>)
      modifies this
      ensures State() == old(State()).(content := edited, promptText := PromptOf(edited), promptWidget := PromptOf(edited))
    {
      content := edited;
      UpdatePromptData();
    }

    /** `_restorePromptContent`: the field rebuilt from plain text. */
    method RestorePromptContent(text: string)
      modifies this
      ensures State() == old(State()).(content := Restore(text))
    {
      content := [];
      if text != "" {
        content := RestorePieces(text);
      }
    }

    /** The data part of `serialize`. */
    function SerializeData(): (d: SavedNode)
      reads this
      ensures RestoredPoints(d) == points
      ensures !PromptThrows(d)
    {
      SavedNode(Some(points), Str(promptText), imageName)
    }

    /** The data part of `configure`: the saved points and instruction text
        are taken over (or reset), the field is rebuilt from the text, and
        the image named by the image widget starts loading.  The selection
        is not reset.  A saved prompt that is truthy but not a string makes
        the deferred restore throw before it changes anything: `completed`
        is false and only the node's "new" flag has changed. */
    method Configure(data: SavedNode) returns (completed: bool)
      modifies this
      ensures completed == !PromptThrows(data)
      ensures !completed ==> State() == old(State()).(isNewNode := false)
      ensures completed ==> var ps := RestoredPoints(data);
        var t := RestoredPrompt(data);
        State() == old(State()).(isNewNode := false, points := ps, pointsWidget := ps, promptText := t,
                                 content := Restore(t),
                                 promptWidget := if HasPromptText(data) then t else old(promptWidget),
                                 imageShown := old(imageShown) || old(imageName) != "")
    {
      isNewNode := false;
      if PromptThrows(data) {
        return false;
      }
      RestoreSaved(data);
      completed := true;
    }

    /** The deferred restore of `configure` once the saved prompt's test has
        passed. */
    method RestoreSaved(data: SavedNode)
      requires !PromptThrows(data)
      modifies this
      ensures var ps := RestoredPoints(data);
        var t := RestoredPrompt(data);
        State() == old(State()).(points := ps, pointsWidget := ps, promptText := t, content := Restore(t),
                                 promptWidget := if HasPromptText(data) then t else old(promptWidget),
                                 imageShown := old(imageShown) || old(imageName) != "")
    {
      var ps := RestoredPoints(data);
      var t := RestoredPrompt(data);
      ghost var s0 := State();
      points := ps;
      UpdatePointsWidget();
      ghost var s1 := State();
      assert s1 == s0.(points := ps, pointsWidget := ps);
      if HasPromptText(data) {
        promptText := t;
        RestorePromptContent(promptText);
        promptWidget := promptText;
      } else {
        promptText := "";
        content := [];
        assert Restore(t) == [];
      }
      ghost var s2 := State();
      assert s2 == s1.(promptText := t, content := Restore(t),
                       promptWidget := if HasPromptText(data) then t else s1.promptWidget);
      if imageName != "" {
        LoadImage(imageName);
      }
    }
  }

  /** Serialising the node and loading the result into a fresh node gives
      back the points and the instruction text. */
  lemma SerializeConfigureRoundTrip(node: PointPromptNode, ns: seq<RNode>)
    requires node.promptText == PromptOf(ns)
    ensures !PromptThrows(node.SerializeData())
    ensures RestoredPoints(node.SerializeData()) == node.points
    ensures RestoredPrompt(node.SerializeData()) == node.promptText
  {
    SaveLoadRoundTrip(node.points, ns, node.imageName);
  }
}
