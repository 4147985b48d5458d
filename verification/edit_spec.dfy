/** The edit engine of `PanelDesigner` as transitions on a `Doc` value: adding a
    cubicle (and cutting it into compartments), choosing a component for a
    section, spawning a busbar, dragging and resizing busbars, and popping the
    single undo stack. The class in `designer.dfy` is specified by these
    functions; the lemmas here state what the source promises about them. */
module EditSpec {
  import opened Wrappers
  import opened PanelTypes
  import opened Layout

  // ---------------------------------------------------------------- invariants

  /** The six sections of a compartment, in `SECTION_NAMES` order. */
  predicate SectionsNamed(comp: Compartment) {
    |comp.sections| == |SECTION_NAMES| &&
    forall j :: 0 <= j < |SECTION_NAMES| ==> comp.sections[j].name == SECTION_NAMES[j]
  }

  predicate WellShaped(c: Cubicle) {
    forall k :: 0 <= k < |c.compartments| ==> SectionsNamed(c.compartments[k])
  }

  /** Canvas ids of cubicles and busbar lines are distinct and below the next
      id to be handed out, and every compartment has its six named sections. */
  predicate Valid(d: Doc) {
    && (forall i :: 0 <= i < |d.cubicles| ==> d.cubicles[i].id < d.nextId && WellShaped(d.cubicles[i]))
    && (forall i, j :: 0 <= i < j < |d.cubicles| ==> d.cubicles[i].id != d.cubicles[j].id)
    && (forall i :: 0 <= i < |d.busbars| ==> d.busbars[i].id < d.nextId && d.busbars[i].handle < d.nextId)
    && (forall i, j :: 0 <= i < j < |d.busbars| ==> d.busbars[i].id != d.busbars[j].id)
  }

  /** Two documents that differ at most in the id counter. Canvas ids are
      never reused, so undo never winds the counter back. */
  predicate SameContent(a: Doc, b: Doc) {
    a.cubicles == b.cubicles && a.busbars == b.busbars && a.undo == b.undo
  }

  // ---------------------------------------------------------------- lookups

  /** The position of the first cubicle with canvas id `id`: the element
      `list.remove` takes out. */
  function CubicleIndex(cs: seq<Cubicle>, id: int): (r: Option<nat>)
    ensures r.Some? ==> r.value < |cs| && cs[r.value].id == id
    ensures r.Some? ==> forall i :: 0 <= i < r.value ==> cs[i].id != id
    ensures r.None? <==> forall i :: 0 <= i < |cs| ==> cs[i].id != id
  {
    if cs == [] then None
    else if cs[0].id == id then Some(0)
    else match CubicleIndex(cs[1..], id)
      case None => None
      case Some(k) => Some(k + 1)
  }

  /** The position of the first busbar whose line has canvas id `id`. */
  function BusbarIndex(bs: seq<Busbar>, id: int): (r: Option<nat>)
    ensures r.Some? ==> r.value < |bs| && bs[r.value].id == id
    ensures r.Some? ==> forall i :: 0 <= i < r.value ==> bs[i].id != id
    ensures r.None? <==> forall i :: 0 <= i < |bs| ==> bs[i].id != id
  {
    if bs == [] then None
    else if bs[0].id == id then Some(0)
    else match BusbarIndex(bs[1..], id)
      case None => None
      case Some(k) => Some(k + 1)
  }

  /** The position of the first busbar whose resize handle has canvas id `id`. */
  function HandleIndex(bs: seq<Busbar>, id: int): (r: Option<nat>)
    ensures r.Some? ==> r.value < |bs| && bs[r.value].handle == id
    ensures r.Some? ==> forall i :: 0 <= i < r.value ==> bs[i].handle != id
    ensures r.None? <==> forall i :: 0 <= i < |bs| ==> bs[i].handle != id
  {
    if bs == [] then None
    else if bs[0].handle == id then Some(0)
    else match HandleIndex(bs[1..], id)
      case None => None
      case Some(k) => Some(k + 1)
  }

  /** The busbar and handle lookups depend on the canvas ids alone. */
  lemma IndexOfSameIds(bs: seq<Busbar>, bs2: seq<Busbar>, id: int)
    requires |bs2| == |bs|
    requires forall i :: 0 <= i < |bs| ==> bs2[i].id == bs[i].id && bs2[i].handle == bs[i].handle
    ensures BusbarIndex(bs2, id) == BusbarIndex(bs, id)
    ensures HandleIndex(bs2, id) == HandleIndex(bs, id)
  {
    var b, b2 := BusbarIndex(bs, id), BusbarIndex(bs2, id);
    if b.Some? {
      assert b2.Some? && b2.value <= b.value;
    }
    var h, h2 := HandleIndex(bs, id), HandleIndex(bs2, id);
    if h.Some? {
      assert h2.Some? && h2.value <= h.value;
    }
  }

  lemma LastIndexIsFresh(cs: seq<Cubicle>, c: Cubicle)
    requires forall i :: 0 <= i < |cs| ==> cs[i].id != c.id
    ensures CubicleIndex(cs + [c], c.id) == Some(|cs|)
  {
    var all := cs + [c];
    var r := CubicleIndex(all, c.id);
    assert all[|cs|].id == c.id;
    assert r.Some?;
  }

  lemma LastBusbarIsFresh(bs: seq<Busbar>, b: Busbar)
    requires forall i :: 0 <= i < |bs| ==> bs[i].id != b.id
    ensures BusbarIndex(bs + [b], b.id) == Some(|bs|)
  {
    var all := bs + [b];
    var r := BusbarIndex(all, b.id);
    assert all[|bs|].id == b.id;
    assert r.Some?;
  }

  // ---------------------------------------------------------------- cubicles

  /** `create_compartments(cubicle, num)`: `num` bands of equal height
      `(y2 - y1) / num` are appended below the compartments the cubicle already
      has, each cut into six sections whose canvas ids start at `firstId`. */
  function CreateCompartments(c: Cubicle, num: nat, firstId: int): (r: Cubicle)
    requires num >= 1
    ensures r.id == c.id && r.width == c.width && r.height == c.height && r.rect == c.rect
    ensures |r.compartments| == |c.compartments| + num
    ensures r.compartments[..|c.compartments|] == c.compartments
    ensures forall k :: |c.compartments| <= k < |r.compartments| ==>
      r.compartments[k] == Band(c.rect, k, (c.rect.y2 - c.rect.y1) / num as real,
                                firstId + |SECTION_NAMES| * (k - |c.compartments|))
    ensures WellShaped(c) ==> WellShaped(r)
  {
    var h := (c.rect.y2 - c.rect.y1) / num as real;
    var added := Bands(c.rect, |c.compartments|, h, firstId, num);
    var r := c.(compartments := c.compartments + added);
    assert forall k :: |c.compartments| <= k < |r.compartments| ==>
      r.compartments[k] == added[k - |c.compartments|];
    r
  }

  /** The confirm handler of the cubicle-size dialog, followed by the
      compartment prompt: the cubicle gets the next canvas id, is placed by
      `NewCubicle`, is logged on the undo stack, and is cut into `count`
      compartments unless the prompt was cancelled (`count == 0`), in which case
      it stays added and logged with no compartments. */
  function AddCubicle(d: Doc, width: int, height: int, count: nat): (r: Doc)
    ensures |r.cubicles| == |d.cubicles| + 1 && r.cubicles[..|d.cubicles|] == d.cubicles
    ensures r.busbars == d.busbars
    ensures r.undo == d.undo + [AddCubicleEntry(d.nextId)]
    ensures r.nextId > d.nextId
    ensures var c := r.cubicles[|d.cubicles|];
            && c.id == d.nextId && c.width == width && c.height == height
            && c.rect == NewCubicle(d.cubicles, d.nextId, width, height).rect
            && |c.compartments| == count
    ensures count == 0 ==> r.cubicles[|d.cubicles|] == NewCubicle(d.cubicles, d.nextId, width, height)
    ensures count >= 1 ==>
              r.cubicles[|d.cubicles|] ==
              CreateCompartments(NewCubicle(d.cubicles, d.nextId, width, height), count, d.nextId + 1)
  {
    var c := NewCubicle(d.cubicles, d.nextId, width, height);
    var built := if count == 0 then c else CreateCompartments(c, count, d.nextId + 1);
    Doc(d.cubicles + [built], d.busbars, d.undo + [AddCubicleEntry(d.nextId)],
        d.nextId + 1 + |SECTION_NAMES| * count)
  }

  /** Each cubicle added starts where the last one ends, at the same height;
      the first one is at (50, 50). */
  lemma AddCubicleKeepsTiled(d: Doc, width: int, height: int, count: nat)
    requires Tiled(d.cubicles)
    ensures Tiled(AddCubicle(d, width, height, count).cubicles)
    ensures d.cubicles == [] ==>
      AddCubicle(d, width, height, count).cubicles[0].rect.x1 == 50.0 &&
      AddCubicle(d, width, height, count).cubicles[0].rect.y1 == 50.0
  {
    var r := AddCubicle(d, width, height, count);
    var c := r.cubicles[|d.cubicles|];
    assert r.cubicles == d.cubicles + [c];
    AppendKeepsTiled(d.cubicles, d.nextId, width, height, c);
  }

  /** A cubicle with no compartments yet, cut into `count`, gets stacked
      bands of equal height. */
  lemma FreshBands(c: Cubicle, count: nat, firstId: int)
    requires c.compartments == [] && count >= 1
    ensures Stacked(c.rect, CreateCompartments(c, count, firstId).compartments)
  {
    var h := (c.rect.y2 - c.rect.y1) / count as real;
    assert CreateCompartments(c, count, firstId).compartments == Bands(c.rect, 0, h, firstId, count);
    BandsStack(c.rect, count, firstId);
  }

  /** The compartments of a freshly added cubicle stack from its top edge to
      its bottom edge, `count` bands of equal height. */
  lemma AddCubicleBands(d: Doc, width: int, height: int, count: nat)
    requires count >= 1
    ensures var c := AddCubicle(d, width, height, count).cubicles[|d.cubicles|];
            |c.compartments| == count && Stacked(c.rect, c.compartments)
  {
    var c0 := NewCubicle(d.cubicles, d.nextId, width, height);
    var c := CreateCompartments(c0, count, d.nextId + 1);
    assert AddCubicle(d, width, height, count).cubicles[|d.cubicles|] == c;
    FreshBands(c0, count, d.nextId + 1);
  }

  // ---------------------------------------------------------------- components

  /** The cubicles with the item of section `j` of compartment `k` of cubicle
      `i` replaced, everything else untouched. */
  function SetItem(cs: seq<Cubicle>, i: nat, k: nat, j: nat, item: Option<Item>): (r: seq<Cubicle>)
    requires i < |cs| && k < |cs[i].compartments| && j < |cs[i].compartments[k].sections|
    ensures |r| == |cs|
    ensures forall i' :: 0 <= i' < |cs| && i' != i ==> r[i'] == cs[i']
    ensures r[i].id == cs[i].id && r[i].width == cs[i].width && r[i].height == cs[i].height
    ensures r[i].rect == cs[i].rect && |r[i].compartments| == |cs[i].compartments|
    ensures forall k' :: 0 <= k' < |cs[i].compartments| && k' != k ==>
      r[i].compartments[k'] == cs[i].compartments[k']
    ensures |r[i].compartments[k].sections| == |cs[i].compartments[k].sections|
    ensures forall j' :: 0 <= j' < |cs[i].compartments[k].sections| && j' != j ==>
      r[i].compartments[k].sections[j'] == cs[i].compartments[k].sections[j']
    ensures r[i].compartments[k].sections[j] == cs[i].compartments[k].sections[j].(item := item)
  {
    var c := cs[i];
    var comp := c.compartments[k];
    var newComp := comp.(sections := comp.sections[j := comp.sections[j].(item := item)]);
    var comps := c.compartments[k := newComp];
    cs[i := c.(compartments := comps)]
  }

  /** Writing back the item that was there leaves the cubicles as they were. */
  lemma SetItemRestore(cs: seq<Cubicle>, i: nat, k: nat, j: nat, item: Option<Item>)
    requires i < |cs| && k < |cs[i].compartments| && j < |cs[i].compartments[k].sections|
    ensures SetItem(SetItem(cs, i, k, j, item), i, k, j, cs[i].compartments[k].sections[j].item) == cs
  {
    var r := SetItem(SetItem(cs, i, k, j, item), i, k, j, cs[i].compartments[k].sections[j].item);
    assert r[i].compartments[k].sections == cs[i].compartments[k].sections;
    assert r[i].compartments == cs[i].compartments;
    assert r[i] == cs[i];
  }

  /** Whether section `j` of compartment `k` of cubicle `i` exists. */
  predicate SectionExists(cs: seq<Cubicle>, i: nat, k: nat, j: nat) {
    i < |cs| && k < |cs[i].compartments| && j < |cs[i].compartments[k].sections|
  }

  /** `select_item` of the search popup: the section gets the chosen model and
      description, and the undo stack records where it is and what it held. */
  function Select(d: Doc, i: nat, k: nat, j: nat, item: Item): (r: Doc)
    requires SectionExists(d.cubicles, i, k, j)
    ensures r.cubicles == SetItem(d.cubicles, i, k, j, Some(item))
    ensures r.busbars == d.busbars && r.nextId == d.nextId
    ensures r.undo == d.undo + [SelectEntry(d.cubicles[i].id, k, j, d.cubicles[i].compartments[k].sections[j].item)]
  {
    var prev := d.cubicles[i].compartments[k].sections[j].item;
    d.(cubicles := SetItem(d.cubicles, i, k, j, Some(item)),
       undo := d.undo + [SelectEntry(d.cubicles[i].id, k, j, prev)])
  }

  // ---------------------------------------------------------------- busbars

  /** `spawn_vertical_busbar`: a vertical line from (150, 50) to (150, 300). */
  function VerticalBusbar(amperage: real, density: real, phase: string): (b: BusbarData)
    ensures b.orientation == Vertical && b.sizing == Computed(amperage, density) && b.phase == phase
    ensures Length(b) == 250.0
  {
    BusbarData(Vertical, Rect(150.0, 50.0, 150.0, 300.0), phase, Computed(amperage, density))
  }

  /** `spawn_horizontal_busbar`: a horizontal line from (50, 100) to (250, 100). */
  function HorizontalBusbar(amperage: real, density: real, phase: string): (b: BusbarData)
    ensures b.orientation == Horizontal && b.sizing == Computed(amperage, density) && b.phase == phase
    ensures Length(b) == 200.0
  {
    BusbarData(Horizontal, Rect(50.0, 100.0, 250.0, 100.0), phase, Computed(amperage, density))
  }

  /** `spawn_busbar_terminal`: horizontal from (50, 150) to (250, 150), or
      vertical from (200, 50) to (200, 300), with a catalogue size and runs. */
  function TerminalBusbar(size: string, runs: int, phase: string, orientation: Orientation): (b: BusbarData)
    ensures b.orientation == orientation && b.sizing == CatalogSize(size, runs) && b.phase == phase
    ensures Length(b) == if orientation == Horizontal then 200.0 else 250.0
  {
    var coords := if orientation == Horizontal then Rect(50.0, 150.0, 250.0, 150.0)
                  else Rect(200.0, 50.0, 200.0, 300.0);
    BusbarData(orientation, coords, phase, CatalogSize(size, runs))
  }

  /** A spawned busbar gets a line id and a resize-handle id, both fresh, and
      is logged on the undo stack. */
  function AddBusbar(d: Doc, data: BusbarData): (r: Doc)
    ensures r.cubicles == d.cubicles
    ensures r.busbars == d.busbars + [Busbar(d.nextId, d.nextId + 1, data)]
    ensures r.undo == d.undo + [AddBusbarEntry(d.nextId)]
    ensures r.nextId == d.nextId + 2
  {
    Doc(d.cubicles, d.busbars + [Busbar(d.nextId, d.nextId + 1, data)],
        d.undo + [AddBusbarEntry(d.nextId)], d.nextId + 2)
  }

  /** The signed length the bill of materials uses: `x2 - x1` for a horizontal
      busbar, `y2 - y1` otherwise. */
  function Length(b: BusbarData): real {
    if b.orientation == Horizontal then b.coords.x2 - b.coords.x1 else b.coords.y2 - b.coords.y1
  }

  /** Dragging a line moves both endpoints by the pointer's displacement. */
  function Translate(r: Rect, dx: real, dy: real): (t: Rect)
    ensures t.x2 - t.x1 == r.x2 - r.x1 && t.y2 - t.y1 == r.y2 - r.y1
  {
    Rect(r.x1 + dx, r.y1 + dy, r.x2 + dx, r.y2 + dy)
  }

  /** Dragging the resize handle moves only the trailing endpoint, along the
      busbar's own axis. */
  function ResizeEnd(o: Orientation, r: Rect, dx: real, dy: real): (t: Rect)
    ensures t.x1 == r.x1 && t.y1 == r.y1
    ensures o == Vertical ==> t.x2 == r.x2
    ensures o != Vertical ==> t.y2 == r.y2
  {
    if o == Vertical then r.(y2 := r.y2 + dy) else r.(x2 := r.x2 + dx)
  }

  /** A busbar whose line was dragged by (`dx`, `dy`). */
  function DraggedLine(b: Busbar, dx: real, dy: real): (r: Busbar)
    ensures r == b.(data := b.data.(coords := r.data.coords))
    ensures Length(r.data) == Length(b.data)
  {
    b.(data := b.data.(coords := Translate(b.data.coords, dx, dy)))
  }

  /** A busbar whose resize handle was dragged by (`dx`, `dy`). */
  function DraggedHandle(b: Busbar, dx: real, dy: real): (r: Busbar)
    ensures r == b.(data := b.data.(coords := r.data.coords))
    ensures r.data.coords.x1 == b.data.coords.x1 && r.data.coords.y1 == b.data.coords.y1
  {
    b.(data := b.data.(coords := ResizeEnd(b.data.orientation, b.data.coords, dx, dy)))
  }

  lemma TranslateKeepsLength(b: BusbarData, dx: real, dy: real)
    ensures Length(b.(coords := Translate(b.coords, dx, dy))) == Length(b)
    ensures Translate(Translate(b.coords, dx, dy), -dx, -dy) == b.coords
  {
  }

  lemma ResizeChangesLength(b: BusbarData, dx: real, dy: real)
    ensures var b' := b.(coords := ResizeEnd(b.orientation, b.coords, dx, dy));
            && Length(b') == Length(b) + (if b.orientation == Horizontal then dx else dy)
            && b'.coords.x1 == b.coords.x1 && b'.coords.y1 == b.coords.y1
  {
  }

  /** A `<B1-Motion>` event at (`x`, `y`). The item being dragged is looked up
      first among the busbar lines (a drag), then among the resize handles (a
      resize); the busbar found gets its new coordinates and the drag state the
      new pointer position. Any other state is left alone. */
  function PointerMoved(bs: seq<Busbar>, drag: DragState, x: int, y: int): (r: (seq<Busbar>, DragState))
    ensures |r.0| == |bs|
    ensures drag.Idle? ==> r == (bs, drag)
  {
    match drag
    case Idle => (bs, drag)
    case Dragging(item, lx, ly) =>
      var dx := (x - lx) as real;
      var dy := (y - ly) as real;
      match BusbarIndex(bs, item)
      case Some(i) =>
        (bs[i := DraggedLine(bs[i], dx, dy)], Dragging(item, x, y))
      case None =>
        match HandleIndex(bs, item)
        case Some(i) =>
          (bs[i := DraggedHandle(bs[i], dx, dy)], Dragging(item, x, y))
        case None => (bs, drag)
  }

  /** The two ways a motion event changes a busbar, one lookup each. */
  lemma PointerMovedCases(bs: seq<Busbar>, drag: DragState, x: int, y: int)
    requires drag.Dragging?
    ensures var dx, dy := (x - drag.lastX) as real, (y - drag.lastY) as real;
      match BusbarIndex(bs, drag.item)
      case Some(i) => PointerMoved(bs, drag, x, y) == (bs[i := DraggedLine(bs[i], dx, dy)], Dragging(drag.item, x, y))
      case None =>
        match HandleIndex(bs, drag.item)
        case Some(i) => PointerMoved(bs, drag, x, y) == (bs[i := DraggedHandle(bs[i], dx, dy)], Dragging(drag.item, x, y))
        case None => PointerMoved(bs, drag, x, y) == (bs, drag)
  {
  }

  /** A motion event changes only coordinates: every busbar keeps its ids,
      orientation, phase and sizing. */
  lemma PointerMovedKeeps(bs: seq<Busbar>, drag: DragState, x: int, y: int)
    ensures var r := PointerMoved(bs, drag, x, y).0;
      forall i :: 0 <= i < |bs| ==>
        && r[i].id == bs[i].id && r[i].handle == bs[i].handle
        && r[i].data.orientation == bs[i].data.orientation && r[i].data.phase == bs[i].data.phase
        && r[i].data.sizing == bs[i].data.sizing
  {
  }

  /** Dragging and resizing keep the document valid: no canvas id changes. */
  lemma PointerMovedValid(d: Doc, drag: DragState, x: int, y: int)
    requires Valid(d)
    ensures Valid(d.(busbars := PointerMoved(d.busbars, drag, x, y).0))
  {
    PointerMovedKeeps(d.busbars, drag, x, y);
  }

  /** Motion events compose: moving the pointer to one place and then to
      another leaves the busbars where a single move to the second place
      would. */
  lemma MovesCompose(bs: seq<Busbar>, drag: DragState, x1: int, y1: int, x2: int, y2: int)
    ensures var (bs1, drag1) := PointerMoved(bs, drag, x1, y1);
            PointerMoved(bs1, drag1, x2, y2).0 == PointerMoved(bs, drag, x2, y2).0
  {
    if drag.Dragging? {
      match BusbarIndex(bs, drag.item) {
        case Some(i) => LineMovesCompose(bs, drag, i, x1, y1, x2, y2);
        case None =>
          match HandleIndex(bs, drag.item) {
            case Some(i) => HandleMovesCompose(bs, drag, i, x1, y1, x2, y2);
            case None =>
          }
      }
    }
  }

  lemma LineMovesCompose(bs: seq<Busbar>, drag: DragState, i: nat, x1: int, y1: int, x2: int, y2: int)
    requires drag.Dragging? && BusbarIndex(bs, drag.item) == Some(i)
    ensures var (bs1, drag1) := PointerMoved(bs, drag, x1, y1);
            PointerMoved(bs1, drag1, x2, y2).0 == PointerMoved(bs, drag, x2, y2).0
  {
    var (dx1, dy1) := ((x1 - drag.lastX) as real, (y1 - drag.lastY) as real);
    var (dx2, dy2) := ((x2 - x1) as real, (y2 - y1) as real);
    var b1 := DraggedLine(bs[i], dx1, dy1);
    var b2 := DraggedLine(b1, dx2, dy2);
    var bs1 := bs[i := b1];
    var drag1 := Dragging(drag.item, x1, y1);
    LineMoved(bs, drag, i, x1, y1, dx1, dy1);
    IndexOfSameIds(bs, bs1, drag.item);
    LineMoved(bs1, drag1, i, x2, y2, dx2, dy2);
    assert b2 == DraggedLine(bs[i], dx1 + dx2, dy1 + dy2) by {
      var r := bs[i].data.coords;
      assert Translate(Translate(r, dx1, dy1), dx2, dy2) == Translate(r, dx1 + dx2, dy1 + dy2);
    }
    LineMoved(bs, drag, i, x2, y2, dx1 + dx2, dy1 + dy2);
    assert bs1[i := b2] == bs[i := b2];
  }

  /** A motion event while a line is held moves that line by the pointer's
      offset from its last position. */
  lemma LineMoved(bs: seq<Busbar>, drag: DragState, i: nat, x: int, y: int, dx: real, dy: real)
    requires drag.Dragging? && BusbarIndex(bs, drag.item) == Some(i)
    requires dx == (x - drag.lastX) as real && dy == (y - drag.lastY) as real
    ensures PointerMoved(bs, drag, x, y) == (bs[i := DraggedLine(bs[i], dx, dy)], Dragging(drag.item, x, y))
  {
  }

  lemma HandleMovesCompose(bs: seq<Busbar>, drag: DragState, i: nat, x1: int, y1: int, x2: int, y2: int)
    requires drag.Dragging? && BusbarIndex(bs, drag.item) == None && HandleIndex(bs, drag.item) == Some(i)
    ensures var (bs1, drag1) := PointerMoved(bs, drag, x1, y1);
            PointerMoved(bs1, drag1, x2, y2).0 == PointerMoved(bs, drag, x2, y2).0
  {
    var (dx1, dy1) := ((x1 - drag.lastX) as real, (y1 - drag.lastY) as real);
    var (dx2, dy2) := ((x2 - x1) as real, (y2 - y1) as real);
    var b1 := DraggedHandle(bs[i], dx1, dy1);
    var b2 := DraggedHandle(b1, dx2, dy2);
    var bs1 := bs[i := b1];
    var drag1 := Dragging(drag.item, x1, y1);
    HandleMoved(bs, drag, i, x1, y1, dx1, dy1);
    IndexOfSameIds(bs, bs1, drag.item);
    HandleMoved(bs1, drag1, i, x2, y2, dx2, dy2);
    assert b2 == DraggedHandle(bs[i], dx1 + dx2, dy1 + dy2);
    HandleMoved(bs, drag, i, x2, y2, dx1 + dx2, dy1 + dy2);
    assert bs1[i := b2] == bs[i := b2];
  }

  /** A motion event while a resize handle is held stretches its busbar by
      the pointer's offset from its last position. */
  lemma HandleMoved(bs: seq<Busbar>, drag: DragState, i: nat, x: int, y: int, dx: real, dy: real)
    requires drag.Dragging? && BusbarIndex(bs, drag.item) == None && HandleIndex(bs, drag.item) == Some(i)
    requires dx == (x - drag.lastX) as real && dy == (y - drag.lastY) as real
    ensures PointerMoved(bs, drag, x, y) == (bs[i := DraggedHandle(bs[i], dx, dy)], Dragging(drag.item, x, y))
  {
  }


  // ---------------------------------------------------------------- undo

  datatype UndoOutcome =
    | NothingToUndo   // "Nothing to undo."
    | Undone          // "Last action undone."
    | TargetMissing   // raised after the pop: the entry is gone, the lists are not

  /** The cubicles with the item at a recorded position written back, if the
      cubicle is still in the list; the section itself is found by position. */
  function RestoreItem(cs: seq<Cubicle>, cubicleId: int, k: nat, j: nat, item: Option<Item>): (r: seq<Cubicle>)
    ensures CubicleIndex(cs, cubicleId).None? ==> r == cs
  {
    match CubicleIndex(cs, cubicleId)
    case Some(i) => if SectionExists(cs, i, k, j) then SetItem(cs, i, k, j, item) else cs
    case None => cs
  }

  /** The top entry of the stack cannot be reversed: the cubicle or busbar it
      added is no longer in its list, or the cubicle of the section it changed
      is gone while there is a previous item to redraw. */
  predicate TargetGone(d: Doc, e: UndoEntry) {
    match e
    case AddCubicleEntry(id) => forall c :: c in d.cubicles ==> c.id != id
    case AddBusbarEntry(id) => forall b :: b in d.busbars ==> b.id != id
    case SelectEntry(id, _, _, prev) => prev.Some? && forall c :: c in d.cubicles ==> c.id != id
  }

  /** `undo_last_action`: an empty stack changes nothing; otherwise exactly the
      top entry is popped and reversed. An added cubicle or busbar is removed
      from its list (the first one with its id); when it is no longer there
      `list.remove` raises after the pop, leaving the lists alone. A selection
      puts back the item the section held before. When that section's cubicle
      has left the list (the canvas was cleared), a previous item is written
      into the detached section and redrawing it raises, because its rectangle
      has no coordinates any more; with no previous item nothing is drawn. */
  function Undo(d: Doc): (r: (Doc, UndoOutcome))
    ensures d.undo == [] <==> r.1 == NothingToUndo
    ensures d.undo == [] ==> r.0 == d
    ensures d.undo != [] ==> r.0.undo == d.undo[..|d.undo| - 1] && r.0.nextId == d.nextId
    ensures r.1 == TargetMissing ==> r.0.cubicles == d.cubicles && r.0.busbars == d.busbars
  {
    if d.undo == [] then (d, NothingToUndo)
    else
      var d1 := d.(undo := d.undo[..|d.undo| - 1]);
      match d.undo[|d.undo| - 1]
      case AddCubicleEntry(id) =>
        (match CubicleIndex(d.cubicles, id)
         case None => (d1, TargetMissing)
         case Some(i) => (d1.(cubicles := d.cubicles[..i] + d.cubicles[i + 1..]), Undone))
      case AddBusbarEntry(id) =>
        (match BusbarIndex(d.busbars, id)
         case None => (d1, TargetMissing)
         case Some(i) => (d1.(busbars := d.busbars[..i] + d.busbars[i + 1..]), Undone))
      case SelectEntry(id, k, j, prev) =>
        if CubicleIndex(d.cubicles, id).None? && prev.Some? then (d1, TargetMissing)
        else (d1.(cubicles := RestoreItem(d.cubicles, id, k, j, prev)), Undone)
  }

  /** Undo fails exactly when the top entry's target is gone. */
  lemma UndoFailsExactly(d: Doc)
    ensures Undo(d).1 == TargetMissing <==> d.undo != [] && TargetGone(d, d.undo[|d.undo| - 1])
  {
    if d.undo != [] {
      match d.undo[|d.undo| - 1] {
        case AddCubicleEntry(id) =>
        case AddBusbarEntry(id) =>
        case SelectEntry(id, k, j, prev) =>
      }
    }
  }

  /** `create_panel` empties the cubicle and busbar lists but keeps the undo
      stack. */
  function ClearPanel(d: Doc): (r: Doc)
    ensures r.cubicles == [] && r.busbars == [] && r.undo == d.undo && r.nextId == d.nextId
  {
    d.(cubicles := [], busbars := [])
  }

  /** So undoing an addition made before `create_panel` hits `list.remove` on
      an element that is gone, and undoing a choice that replaced an item hits
      the redraw of a deleted rectangle: the entry is popped and nothing else
      happens. */
  lemma UndoAfterClear(d: Doc)
    requires d.undo != []
    requires d.undo[|d.undo| - 1].SelectEntry? ==> d.undo[|d.undo| - 1].previous.Some?
    ensures Undo(ClearPanel(d)).1 == TargetMissing
    ensures Undo(ClearPanel(d)).0 == ClearPanel(d).(undo := d.undo[..|d.undo| - 1])
  {
  }

  // ---------------------------------------------------------------- replay

  /** The undoable edits. Dragging and resizing are not logged. */
  datatype EditOp =
    | AddCubicleOp(width: int, height: int, count: nat)
    | SelectOp(cubicle: nat, compartment: nat, section: nat, item: Item)
    | AddBusbarOp(data: BusbarData)

  predicate Applicable(d: Doc, op: EditOp) {
    op.SelectOp? ==> SectionExists(d.cubicles, op.cubicle, op.compartment, op.section)
  }

  function Step(d: Doc, op: EditOp): (r: Doc)
    requires Applicable(d, op)
    ensures |r.undo| == |d.undo| + 1 && r.undo[..|d.undo|] == d.undo
    ensures r.nextId >= d.nextId
  {
    match op
    case AddCubicleOp(w, h, n) => AddCubicle(d, w, h, n)
    case SelectOp(i, k, j, item) => Select(d, i, k, j, item)
    case AddBusbarOp(data) => AddBusbar(d, data)
  }

  predicate Replayable(d: Doc, ops: seq<EditOp>)
    decreases |ops|
  {
    ops == [] || (Applicable(d, ops[0]) && Replayable(Step(d, ops[0]), ops[1..]))
  }

  function Replay(d: Doc, ops: seq<EditOp>): Doc
    requires Replayable(d, ops)
    decreases |ops|
  {
    if ops == [] then d else Replay(Step(d, ops[0]), ops[1..])
  }

  function UndoTimes(d: Doc, n: nat): Doc {
    if n == 0 then d else Undo(UndoTimes(d, n - 1)).0
  }

  /** Every logged edit keeps the document valid. */
  lemma StepValid(d: Doc, op: EditOp)
    requires Valid(d) && Applicable(d, op)
    ensures Valid(Step(d, op))
  {
    match op
    case AddCubicleOp(w, h, n) =>
      var r := AddCubicle(d, w, h, n);
      var c := r.cubicles[|d.cubicles|];
      assert r.cubicles == d.cubicles + [c];
      assert WellShaped(c);
    case SelectOp(i, k, j, item) =>
      SetItemValid(d, i, k, j, Some(item));
    case AddBusbarOp(data) =>
  }

  lemma RemoveCubicleValid(d: Doc, i: nat)
    requires Valid(d) && i < |d.cubicles|
    ensures Valid(d.(cubicles := d.cubicles[..i] + d.cubicles[i + 1..]))
  {
    var cs := d.cubicles[..i] + d.cubicles[i + 1..];
    assert forall a :: 0 <= a < |cs| ==> cs[a] == d.cubicles[if a < i then a else a + 1];
  }

  lemma RemoveBusbarValid(d: Doc, i: nat)
    requires Valid(d) && i < |d.busbars|
    ensures Valid(d.(busbars := d.busbars[..i] + d.busbars[i + 1..]))
  {
    var bs := d.busbars[..i] + d.busbars[i + 1..];
    assert forall a :: 0 <= a < |bs| ==> bs[a] == d.busbars[if a < i then a else a + 1];
  }

  lemma SetItemValid(d: Doc, i: nat, k: nat, j: nat, item: Option<Item>)
    requires Valid(d) && SectionExists(d.cubicles, i, k, j)
    ensures Valid(d.(cubicles := SetItem(d.cubicles, i, k, j, item)))
  {
    var r := SetItem(d.cubicles, i, k, j, item);
    forall k' | 0 <= k' < |r[i].compartments| ensures SectionsNamed(r[i].compartments[k']) {
      assert SectionsNamed(d.cubicles[i].compartments[k']);
    }
    assert WellShaped(r[i]);
  }

  /** Undo keeps the document valid. */
  lemma UndoValid(d: Doc)
    requires Valid(d)
    ensures Valid(Undo(d).0)
  {
    if d.undo != [] {
      var d1 := d.(undo := d.undo[..|d.undo| - 1]);
      assert Valid(d1);
      match d.undo[|d.undo| - 1] {
        case AddCubicleEntry(id) =>
          match CubicleIndex(d.cubicles, id) {
            case None =>
            case Some(i) => RemoveCubicleValid(d1, i);
          }
        case AddBusbarEntry(id) =>
          match BusbarIndex(d.busbars, id) {
            case None =>
            case Some(i) => RemoveBusbarValid(d1, i);
          }
        case SelectEntry(id, k, j, prev) =>
          match CubicleIndex(d.cubicles, id) {
            case None =>
            case Some(i) =>
              if SectionExists(d.cubicles, i, k, j) {
                SetItemValid(d1, i, k, j, prev);
              }
          }
      }
    }
  }

  /** Undoing "Add Cubicle" removes the cubicle it added. */
  lemma UndoAddCubicle(d: Doc, width: int, height: int, count: nat)
    requires Valid(d)
    ensures Undo(AddCubicle(d, width, height, count)).1 == Undone
    ensures SameContent(Undo(AddCubicle(d, width, height, count)).0, d)
  {
    var s := AddCubicle(d, width, height, count);
    assert s.undo[..|s.undo| - 1] == d.undo;
    var c := s.cubicles[|d.cubicles|];
    assert s.cubicles == d.cubicles + [c];
    LastIndexIsFresh(d.cubicles, c);
    assert s.cubicles[..|d.cubicles|] + s.cubicles[|d.cubicles| + 1..] == d.cubicles;
  }

  /** Undoing a component choice writes back the item it replaced. */
  lemma UndoSelect(d: Doc, i: nat, k: nat, j: nat, item: Item)
    requires Valid(d) && SectionExists(d.cubicles, i, k, j)
    ensures Undo(Select(d, i, k, j, item)).1 == Undone
    ensures SameContent(Undo(Select(d, i, k, j, item)).0, d)
  {
    var s := Select(d, i, k, j, item);
    assert s.undo[..|s.undo| - 1] == d.undo;
    assert CubicleIndex(s.cubicles, d.cubicles[i].id) == Some(i);
    SetItemRestore(d.cubicles, i, k, j, Some(item));
  }

  /** Undoing a spawned busbar removes it. */
  lemma UndoAddBusbar(d: Doc, data: BusbarData)
    requires Valid(d)
    ensures Undo(AddBusbar(d, data)).1 == Undone
    ensures SameContent(Undo(AddBusbar(d, data)).0, d)
  {
    var s := AddBusbar(d, data);
    assert s.undo[..|s.undo| - 1] == d.undo;
    LastBusbarIsFresh(d.busbars, Busbar(d.nextId, d.nextId + 1, data));
    assert s.busbars[..|d.busbars|] + s.busbars[|d.busbars| + 1..] == d.busbars;
  }

  /** Undo right after a logged edit reverses exactly that edit. */
  lemma UndoStep(d: Doc, op: EditOp)
    requires Valid(d) && Applicable(d, op)
    ensures Undo(Step(d, op)).1 == Undone
    ensures SameContent(Undo(Step(d, op)).0, d)
  {
    match op
    case AddCubicleOp(w, h, n) => UndoAddCubicle(d, w, h, n);
    case SelectOp(i, k, j, item) => UndoSelect(d, i, k, j, item);
    case AddBusbarOp(data) => UndoAddBusbar(d, data);
  }

  lemma UndoCongruent(a: Doc, b: Doc)
    requires SameContent(a, b)
    ensures SameContent(Undo(a).0, Undo(b).0)
  {
    assert a == b.(nextId := a.nextId);
  }

  lemma {:induction false} UndoTimesCongruent(a: Doc, b: Doc, n: nat)
    requires SameContent(a, b)
    ensures SameContent(UndoTimes(a, n), UndoTimes(b, n))
  {
    if n > 0 {
      UndoTimesCongruent(a, b, n - 1);
      UndoCongruent(UndoTimes(a, n - 1), UndoTimes(b, n - 1));
    }
  }

  lemma {:induction false} ReplayValid(d: Doc, ops: seq<EditOp>)
    requires Valid(d) && Replayable(d, ops)
    ensures Valid(Replay(d, ops))
    decreases |ops|
  {
    if ops != [] {
      StepValid(d, ops[0]);
      ReplayValid(Step(d, ops[0]), ops[1..]);
    }
  }

  /** Undoing as many times as edits were made takes the panel back to where
      it started: the undo stack is an exact inverse of the logged edits. */
  lemma {:induction false} ReplayThenUndo(d: Doc, ops: seq<EditOp>)
    requires Valid(d) && Replayable(d, ops)
    ensures SameContent(UndoTimes(Replay(d, ops), |ops|), d)
    decreases |ops|
  {
    if ops != [] {
      var s := Step(d, ops[0]);
      StepValid(d, ops[0]);
      ReplayThenUndo(s, ops[1..]);
      UndoOnceMore(d, ops[0], Replay(s, ops[1..]), |ops| - 1);
    }
  }


  /** If `n` undos bring `r` back to the content of `Step(d, op)`, one more
      brings it back to the content of `d`. */
  lemma UndoOnceMore(d: Doc, op: EditOp, r: Doc, n: nat)
    requires Valid(d) && Applicable(d, op)
    requires SameContent(UndoTimes(r, n), Step(d, op))
    ensures SameContent(UndoTimes(r, n + 1), d)
  {
    var u := UndoTimes(r, n);
    UndoCongruent(u, Step(d, op));
    UndoStep(d, op);
  }
}
