/** `PanelDesigner` itself: the object whose fields the editor's handlers
    update in place. Each handler is specified by the value-level transition it
    performs on `Document()` (module `EditSpec`), by the saved record
    (`Persistence`), by the catalogue import (`Catalog`) or by the bill of
    materials (`Bom`); the properties proved about those carry over. The panel
    files are the map `store` from panel name to record. */
module Designer {
  import opened Wrappers
  import opened Text
  import opened PanelTypes
  import opened Layout
  import EditSpec
  import Persistence
  import Catalog
  import Bom

  datatype CreateOutcome = Created | InvalidName | InvalidDepth

  datatype LoadOutcome =
    | Loaded
    | NotFound     // no file for the name
    | Unreadable   // an item saved in a section past the band's sixth

  /** The position of the first section with canvas id `id`. */
  function SectionIndex(sections: seq<Section>, id: int): (r: Option<nat>)
    ensures r.Some? ==> r.value < |sections| && sections[r.value].id == id
    ensures r.Some? ==> forall j :: 0 <= j < r.value ==> sections[j].id != id
    ensures r.None? <==> forall j :: 0 <= j < |sections| ==> sections[j].id != id
  {
    if sections == [] then None
    else if sections[0].id == id then Some(0)
    else match SectionIndex(sections[1..], id)
      case None => None
      case Some(k) => Some(k + 1)
  }

  /** The inner loop of `create_compartments`: compartment number `row`,
      `h` high, drawn as six sections from left to right, each a new canvas
      item with the next id from `firstId` on. */
  method DrawBand(r: Rect, row: nat, h: real, firstId: int) returns (comp: Compartment)
    ensures comp == Band(r, row, h, firstId)
  {
    var y1 := r.y1 + row as real * h;
    var w := (r.x2 - r.x1) / |SECTION_NAMES| as real;
    var sections: seq<Section> := [];
    for j := 0 to |SECTION_NAMES|
      invariant |sections| == j
      invariant forall jj :: 0 <= jj < j ==>
        sections[jj] == Section(SECTION_NAMES[jj], firstId + jj, SectionRect(r, jj, y1, y1 + h), None)
    {
      var x1 := r.x1 + j as real * w;
      sections := sections + [Section(SECTION_NAMES[j], firstId + j, Rect(x1, y1, x1 + w, y1 + h), None)];
    }
    BandOfSections(r, row, h, firstId, sections);
    comp := Compartment(sections);
  }

  /** The scan `select_component` makes for the section it was opened on. */
  method FindSection(sections: seq<Section>, id: int) returns (r: Option<nat>)
    ensures r == SectionIndex(sections, id)
  {
    var j := 0;
    while j < |sections| && sections[j].id != id
      invariant 0 <= j <= |sections|
      invariant forall jj :: 0 <= jj < j ==> sections[jj].id != id
    {
      j := j + 1;
    }
    r := if j == |sections| then None else Some(j);
  }

  /** The scan `list.remove` makes for a cubicle: the first with canvas id `id`. */
  method FindCubicle(cs: seq<Cubicle>, id: int) returns (r: Option<nat>)
    ensures r == EditSpec.CubicleIndex(cs, id)
  {
    var i := 0;
    while i < |cs| && cs[i].id != id
      invariant 0 <= i <= |cs|
      invariant forall ii :: 0 <= ii < i ==> cs[ii].id != id
    {
      i := i + 1;
    }
    r := if i < |cs| then Some(i) else None;
  }

  /** The `for b in self.busbars: if b["id"] == line_id: ... break` scan. */
  method FindLine(bs: seq<Busbar>, id: int) returns (r: Option<nat>)
    ensures r == EditSpec.BusbarIndex(bs, id)
  {
    var i := 0;
    while i < |bs| && bs[i].id != id
      invariant 0 <= i <= |bs|
      invariant forall ii :: 0 <= ii < i ==> bs[ii].id != id
    {
      i := i + 1;
    }
    r := if i < |bs| then Some(i) else None;
  }

  /** The same scan for the busbar whose resize handle has canvas id `id`. */
  method FindHandle(bs: seq<Busbar>, id: int) returns (r: Option<nat>)
    ensures r == EditSpec.HandleIndex(bs, id)
  {
    var i := 0;
    while i < |bs| && bs[i].handle != id
      invariant 0 <= i <= |bs|
      invariant forall ii :: 0 <= ii < i ==> bs[ii].handle != id
    {
      i := i + 1;
    }
    r := if i < |bs| then Some(i) else None;
  }

  /** The inner loop of `load_panel` over one compartment: each saved section
      with an item writes it into the section at the same position; sections
      without an item are passed over. */
  method RestoreSections(comp: Compartment, saved: CompartmentRecord) returns (r: Compartment)
    requires Persistence.ItemsWithin(saved, |comp.sections|)
    ensures r == Persistence.RestoreCompartment(comp, saved)
  {
    var secs := comp.sections;
    for j := 0 to |saved.sections|
      invariant |secs| == |comp.sections|
      invariant forall jj :: 0 <= jj < |secs| ==>
        secs[jj] == if jj < j && saved.sections[jj].item.Some? then comp.sections[jj].(item := saved.sections[jj].item)
                    else comp.sections[jj]
    {
      if saved.sections[j].item.Some? {
        secs := secs[j := secs[j].(item := saved.sections[j].item)];
      }
    }
    r := Compartment(secs);
  }

  /** The loop over a cubicle's saved compartments, by position. */
  method RestoreItems(comps: seq<Compartment>, saved: seq<CompartmentRecord>) returns (r: seq<Compartment>)
    requires |comps| == |saved|
    requires forall k :: 0 <= k < |saved| ==> Persistence.ItemsWithin(saved[k], |comps[k].sections|)
    ensures |r| == |comps|
    ensures forall k :: 0 <= k < |comps| ==> r[k] == Persistence.RestoreCompartment(comps[k], saved[k])
  {
    r := comps;
    for k := 0 to |comps|
      invariant |r| == |comps|
      invariant forall kk :: 0 <= kk < k ==> r[kk] == Persistence.RestoreCompartment(comps[kk], saved[kk])
    {
      var restored := RestoreSections(comps[k], saved[k]);
      r := r[k := restored];
    }
  }

  /** What the listbox shows for a list of catalogue entries. */
  function Labels(bs: seq<Catalog.Breaker>): (r: seq<string>)
    ensures |r| == |bs| && forall i :: 0 <= i < |bs| ==> r[i] == Catalog.ListLabel(bs[i].model, bs[i].desc)
  {
    seq(|bs|, i requires 0 <= i < |bs| => Catalog.ListLabel(bs[i].model, bs[i].desc))
  }

  class PanelDesigner {
    const info: ProjectInfo
    /** `busbar_data`, the sizing table read at start-up. */
    const busbarTable: seq<Bom.SizingRow>
    /** `breaker_types`, in insertion order. */
    var breakerTypes: seq<Catalog.Breaker>
    /** The panel files, by panel name. */
    var store: map<string, PanelRecord>
    var panelName: Option<string>
    var panelDepth: Option<int>
    var cubicles: seq<Cubicle>
    var busbars: seq<Busbar>
    var undoStack: seq<UndoEntry>
    /** The canvas id the next item drawn will get. */
    var nextId: int
    var drag: DragState

    function Document(): PanelTypes.Doc
      reads this
    {
      PanelTypes.Doc(cubicles, busbars, undoStack, nextId)
    }

    ghost predicate Valid()
      reads this
    {
      EditSpec.Valid(Document()) && Catalog.KeysDistinct(breakerTypes)
    }

    /** `not self.panel_name`: no panel created or loaded (or an empty name). */
    predicate HasPanel()
      reads this
    {
      panelName.Some? && panelName.value != []
    }

    /** The designer opens on an empty canvas for one (customer, project,
        reference) group, with the stored catalogue and sizing table. */
    constructor (info: ProjectInfo, breakers: seq<Catalog.Breaker>, table: seq<Bom.SizingRow>,
                 store: map<string, PanelRecord>)
      requires Catalog.KeysDistinct(breakers)
      ensures Valid()
      ensures this.info == info && busbarTable == table && breakerTypes == breakers && this.store == store
      ensures panelName == None && panelDepth == None && drag == Idle
      ensures cubicles == [] && busbars == [] && undoStack == []
    {
      this.info := info;
      busbarTable := table;
      breakerTypes := breakers;
      this.store := store;
      panelName := None;
      panelDepth := None;
      cubicles := [];
      busbars := [];
      undoStack := [];
      nextId := 1;
      drag := Idle;
    }

    /** The "Create" button of the new-panel form: the name is stripped and
        must not be empty, the depth must read as a positive integer; then the
        cubicle and busbar lists are emptied (the undo stack is kept). */
    method CreatePanel(nameText: string, depthText: string) returns (outcome: CreateOutcome)
      requires Valid()
      modifies this
      ensures Valid()
      ensures outcome == InvalidName <==> Strip(nameText) == []
      ensures outcome == Created <==>
        Strip(nameText) != [] && ParseInt(depthText).Some? && ParseInt(depthText).value > 0
      ensures outcome == Created ==>
        Document() == EditSpec.ClearPanel(old(Document())) &&
        panelName == Some(Strip(nameText)) && panelDepth == ParseInt(depthText)
      ensures outcome != Created ==>
        Document() == old(Document()) && panelName == old(panelName) && panelDepth == old(panelDepth)
      ensures breakerTypes == old(breakerTypes) && store == old(store) && drag == old(drag)
    {
      var name := Strip(nameText);
      if name == [] {
        return InvalidName;
      }
      var depth := ParseInt(depthText);
      if depth.None? || depth.value <= 0 {
        return InvalidDepth;
      }
      panelName := Some(name);
      panelDepth := depth;
      cubicles := [];
      busbars := [];
      outcome := Created;
    }

    /** `create_compartments(cubicle, num)` on cubicle `i`: `num` bands are
        appended, each cut into the six sections, every section rectangle a
        freshly drawn canvas item. */
    method CreateCompartments(i: nat, num: nat)
      requires i < |cubicles| && num >= 1
      modifies this
      ensures cubicles == old(cubicles)[i := EditSpec.CreateCompartments(old(cubicles)[i], num, old(nextId))]
      ensures nextId == old(nextId) + |SECTION_NAMES| * num
      ensures busbars == old(busbars) && undoStack == old(undoStack) && drag == old(drag)
      ensures breakerTypes == old(breakerTypes) && store == old(store)
      ensures panelName == old(panelName) && panelDepth == old(panelDepth)
    {
      var c := cubicles[i];
      var r := c.rect;
      var h := (r.y2 - r.y1) / num as real;
      var next := nextId;
      ghost var existing := |c.compartments|;
      for b := 0 to num
        invariant unchanged(this)
        invariant next == old(nextId) + |SECTION_NAMES| * b
        invariant c == old(cubicles)[i].(compartments := old(cubicles)[i].compartments + Bands(r, existing, h, old(nextId), b))
      {
        assert |c.compartments| == existing + b;
        var comp := DrawBand(r, |c.compartments|, h, next);
        assert Bands(r, existing, h, old(nextId), b + 1) == Bands(r, existing, h, old(nextId), b) + [comp];
        c := c.(compartments := c.compartments + [comp]);
        next := next + |SECTION_NAMES|;
      }
      cubicles := cubicles[i := c];
      nextId := next;
    }

    /** "Add Cubicle": refused without a panel; otherwise the size chosen in
        the dialog is parsed, the cubicle is drawn next to the last one and
        logged, and it is cut into the number of compartments given at the
        prompt (`count == 0`: the prompt was cancelled). The dialog only offers
        `CUBICLE_SIZES`, which all parse (`Layout.CubicleSizesParse`); any other
        text makes `int` raise before anything changes. */
    method AddCubicle(size: string, count: nat) returns (added: bool)
      requires Valid()
      modifies this
      ensures Valid()
      ensures added <==> old(HasPanel()) && ParseCubicleSize(size).Some?
      ensures added ==>
        Document() == EditSpec.AddCubicle(old(Document()), ParseCubicleSize(size).value.0,
                                          ParseCubicleSize(size).value.1, count)
      ensures !added ==> Document() == old(Document())
      ensures breakerTypes == old(breakerTypes) && store == old(store) && drag == old(drag)
      ensures panelName == old(panelName) && panelDepth == old(panelDepth)
    {
      if !HasPanel() {
        return false;
      }
      var dims := ParseCubicleSize(size);
      if dims.None? {
        return false;
      }
      PlaceCubicle(dims.value.0, dims.value.1, count);
      added := true;
    }

    /** The confirm handler once the size is read: the cubicle is drawn next
        to the last one, logged, and cut into `count` compartments. */
    method PlaceCubicle(width: int, height: int, count: nat)
      requires Valid()
      modifies this
      ensures Valid()
      ensures Document() == EditSpec.AddCubicle(old(Document()), width, height, count)
      ensures breakerTypes == old(breakerTypes) && store == old(store) && drag == old(drag)
      ensures panelName == old(panelName) && panelDepth == old(panelDepth)
    {
      ghost var d := Document();
      var c := NewCubicle(cubicles, nextId, width, height);
      cubicles := cubicles + [c];
      undoStack := undoStack + [AddCubicleEntry(nextId)];
      nextId := nextId + 1;
      if count > 0 {
        CreateCompartments(|cubicles| - 1, count);
        assert cubicles == d.cubicles + [EditSpec.CreateCompartments(c, count, d.nextId + 1)];
      }
      assert Document() == EditSpec.AddCubicle(d, width, height, count);
      EditSpec.StepValid(d, EditSpec.AddCubicleOp(width, height, count));
    }

    /** The entries the search popup lists for the text typed so far. */
    method ListEntries(searchText: string) returns (labels: seq<string>)
      ensures labels == Labels(Catalog.Search(breakerTypes, searchText))
    {
      labels := [];
      for i := 0 to |breakerTypes|
        invariant labels == Labels(Catalog.Search(breakerTypes[..i], searchText))
      {
        var b := breakerTypes[i];
        assert breakerTypes[..i + 1][..i] == breakerTypes[..i];
        if Catalog.Matches(searchText, b) {
          labels := labels + [Catalog.ListLabel(b.model, b.desc)];
        }
      }
      assert breakerTypes[..|breakerTypes|] == breakerTypes;
    }

    /** The popup's "Select" button for the section with canvas id
        `sectionId` in compartment `k` of the cubicle with canvas id
        `cubicleId`: with an entry chosen, the label is read back into model
        and description (by the corrected `Catalog.ParseLabel`, which splits at
        the last " ("), the section is looked up in its compartment, its item
        is replaced and the previous one logged. Nothing happens when no entry
        is chosen or the section is not found. The popup does not block the
        editor, so the cubicle may have left the list (by undo, "Create Panel"
        or a load) before "Select" is pressed; the item then goes into the
        detached section and drawing its text raises, before anything is
        logged, so the panel is unchanged. */
    method SelectComponent(cubicleId: int, k: nat, sectionId: int, chosen: Option<string>) returns (selected: bool)
      requires Valid()
      requires forall i :: 0 <= i < |cubicles| && cubicles[i].id == cubicleId ==> k < |cubicles[i].compartments|
      modifies this
      ensures Valid()
      ensures var ci := EditSpec.CubicleIndex(old(cubicles), cubicleId);
              selected <==>
                chosen.Some? && Catalog.ParseLabel(chosen.value).Some? && ci.Some? &&
                SectionIndex(old(cubicles)[ci.value].compartments[k].sections, sectionId).Some?
      ensures selected ==>
        var i := EditSpec.CubicleIndex(old(cubicles), cubicleId).value;
        var b := Catalog.ParseLabel(chosen.value).value;
        Document() == EditSpec.Select(old(Document()), i, k,
          SectionIndex(old(cubicles)[i].compartments[k].sections, sectionId).value, Item(b.model, b.desc))
      ensures !selected ==> Document() == old(Document())
      ensures breakerTypes == old(breakerTypes) && store == old(store) && drag == old(drag)
      ensures panelName == old(panelName) && panelDepth == old(panelDepth)
    {
      if chosen.None? {
        return false;
      }
      var parsed := Catalog.ParseLabel(chosen.value);
      if parsed.None? {
        return false;
      }
      var i := FindCubicle(cubicles, cubicleId);
      if i.None? {
        return false;
      }
      var j := FindSection(cubicles[i.value].compartments[k].sections, sectionId);
      if j.None? {
        return false;
      }
      PlaceItem(i.value, k, j.value, Item(parsed.value.model, parsed.value.desc));
      selected := true;
    }

    /** Writing `item` into section `j` of compartment `k` of cubicle `i` and
        logging the item it replaces. */
    method PlaceItem(i: nat, k: nat, j: nat, item: Item)
      requires Valid() && i < |cubicles| && k < |cubicles[i].compartments|
      requires j < |cubicles[i].compartments[k].sections|
      modifies this
      ensures Valid()
      ensures Document() == EditSpec.Select(old(Document()), i, k, j, item)
      ensures breakerTypes == old(breakerTypes) && store == old(store) && drag == old(drag)
      ensures panelName == old(panelName) && panelDepth == old(panelDepth)
    {
      ghost var d := Document();
      var previous := cubicles[i].compartments[k].sections[j].item;
      var cubicleId := cubicles[i].id;
      cubicles := EditSpec.SetItem(cubicles, i, k, j, Some(item));
      undoStack := undoStack + [SelectEntry(cubicleId, k, j, previous)];
      EditSpec.StepValid(d, EditSpec.SelectOp(i, k, j, item));
    }

    /** `spawn_vertical_busbar`. */
    method SpawnVerticalBusbar(amperage: real, density: real, phase: string)
      requires Valid()
      modifies this
      ensures Valid()
      ensures Document() == EditSpec.AddBusbar(old(Document()), EditSpec.VerticalBusbar(amperage, density, phase))
      ensures breakerTypes == old(breakerTypes) && store == old(store) && drag == old(drag)
      ensures panelName == old(panelName) && panelDepth == old(panelDepth)
    {
      ghost var d := Document();
      var data := EditSpec.VerticalBusbar(amperage, density, phase);
      busbars := busbars + [Busbar(nextId, nextId + 1, data)];
      undoStack := undoStack + [AddBusbarEntry(nextId)];
      nextId := nextId + 2;
      EditSpec.StepValid(d, EditSpec.AddBusbarOp(data));
    }

    /** `spawn_horizontal_busbar`. */
    method SpawnHorizontalBusbar(amperage: real, density: real, phase: string)
      requires Valid()
      modifies this
      ensures Valid()
      ensures Document() == EditSpec.AddBusbar(old(Document()), EditSpec.HorizontalBusbar(amperage, density, phase))
      ensures breakerTypes == old(breakerTypes) && store == old(store) && drag == old(drag)
      ensures panelName == old(panelName) && panelDepth == old(panelDepth)
    {
      ghost var d := Document();
      var data := EditSpec.HorizontalBusbar(amperage, density, phase);
      busbars := busbars + [Busbar(nextId, nextId + 1, data)];
      undoStack := undoStack + [AddBusbarEntry(nextId)];
      nextId := nextId + 2;
      EditSpec.StepValid(d, EditSpec.AddBusbarOp(data));
    }

    /** The terminal form's "Add": the number of runs must read as a positive
        integer, then `spawn_busbar_terminal` adds the busbar. */
    method SpawnTerminal(size: string, runsText: string, phase: string, orientation: Orientation)
      returns (added: bool)
      requires Valid()
      modifies this
      ensures Valid()
      ensures added <==> ParseInt(runsText).Some? && ParseInt(runsText).value > 0
      ensures added ==> Document() == EditSpec.AddBusbar(old(Document()),
        EditSpec.TerminalBusbar(size, ParseInt(runsText).value, phase, orientation))
      ensures !added ==> Document() == old(Document())
      ensures breakerTypes == old(breakerTypes) && store == old(store) && drag == old(drag)
      ensures panelName == old(panelName) && panelDepth == old(panelDepth)
    {
      var runs := ParseInt(runsText);
      if runs.None? || runs.value <= 0 {
        return false;
      }
      ghost var d := Document();
      var data := EditSpec.TerminalBusbar(size, runs.value, phase, orientation);
      busbars := busbars + [Busbar(nextId, nextId + 1, data)];
      undoStack := undoStack + [AddBusbarEntry(nextId)];
      nextId := nextId + 2;
      added := true;
      EditSpec.StepValid(d, EditSpec.AddBusbarOp(data));
    }

    /** `<ButtonPress-1>` on a busbar line or a resize handle. */
    method Press(item: int, x: int, y: int)
      modifies this
      ensures drag == Dragging(item, x, y)
      ensures Document() == old(Document()) && breakerTypes == old(breakerTypes) && store == old(store)
      ensures panelName == old(panelName) && panelDepth == old(panelDepth)
    {
      drag := Dragging(item, x, y);
    }

    /** `<ButtonRelease-1>`. */
    method Release()
      modifies this
      ensures drag == Idle
      ensures Document() == old(Document()) && breakerTypes == old(breakerTypes) && store == old(store)
      ensures panelName == old(panelName) && panelDepth == old(panelDepth)
    {
      drag := Idle;
    }

    /** `<B1-Motion>`: the event reaches the handler of the item being
        dragged. It is looked up among the busbar lines first (a drag), then
        among the resize handles (a resize); the stored coordinates are found
        by scanning the busbar list. Not logged for undo. */
    method Move(x: int, y: int)
      requires Valid()
      modifies this
      ensures Valid()
      ensures (busbars, drag) == EditSpec.PointerMoved(old(busbars), old(drag), x, y)
      ensures cubicles == old(cubicles) && undoStack == old(undoStack) && nextId == old(nextId)
      ensures breakerTypes == old(breakerTypes) && store == old(store)
      ensures panelName == old(panelName) && panelDepth == old(panelDepth)
    {
      if drag.Idle? {
        return;
      }
      var line := FindLine(busbars, drag.item);
      if line.Some? {
        DragLine(line.value, x, y);
        return;
      }
      var handle := FindHandle(busbars, drag.item);
      if handle.Some? {
        DragHandle(handle.value, x, y);
      }
    }

    /** `on_move` of a busbar line: both endpoints follow the pointer and the
        pointer position is recorded. */
    method DragLine(i: nat, x: int, y: int)
      requires Valid() && drag.Dragging? && EditSpec.BusbarIndex(busbars, drag.item) == Some(i)
      modifies this
      ensures Valid()
      ensures (busbars, drag) == EditSpec.PointerMoved(old(busbars), old(drag), x, y)
      ensures cubicles == old(cubicles) && undoStack == old(undoStack) && nextId == old(nextId)
      ensures breakerTypes == old(breakerTypes) && store == old(store)
      ensures panelName == old(panelName) && panelDepth == old(panelDepth)
    {
      ghost var d := Document();
      ghost var moved := EditSpec.PointerMoved(busbars, drag, x, y);
      EditSpec.PointerMovedCases(busbars, drag, x, y);
      EditSpec.PointerMovedValid(d, drag, x, y);
      var dx := (x - drag.lastX) as real;
      var dy := (y - drag.lastY) as real;
      busbars := busbars[i := EditSpec.DraggedLine(busbars[i], dx, dy)];
      drag := Dragging(drag.item, x, y);
      assert (busbars, drag) == moved;
      assert Document() == d.(busbars := moved.0);
    }

    /** `on_move` of a resize handle: the trailing endpoint of its busbar
        follows the pointer along the busbar's axis. */
    method DragHandle(i: nat, x: int, y: int)
      requires Valid() && drag.Dragging? && EditSpec.BusbarIndex(busbars, drag.item).None?
      requires EditSpec.HandleIndex(busbars, drag.item) == Some(i)
      modifies this
      ensures Valid()
      ensures (busbars, drag) == EditSpec.PointerMoved(old(busbars), old(drag), x, y)
      ensures cubicles == old(cubicles) && undoStack == old(undoStack) && nextId == old(nextId)
      ensures breakerTypes == old(breakerTypes) && store == old(store)
      ensures panelName == old(panelName) && panelDepth == old(panelDepth)
    {
      ghost var d := Document();
      ghost var moved := EditSpec.PointerMoved(busbars, drag, x, y);
      EditSpec.PointerMovedCases(busbars, drag, x, y);
      EditSpec.PointerMovedValid(d, drag, x, y);
      var dx := (x - drag.lastX) as real;
      var dy := (y - drag.lastY) as real;
      busbars := busbars[i := EditSpec.DraggedHandle(busbars[i], dx, dy)];
      drag := Dragging(drag.item, x, y);
      assert (busbars, drag) == moved;
      assert Document() == d.(busbars := moved.0);
    }

    /** `undo_last_action`: the top entry is popped, then reversed. */
    method Undo() returns (outcome: EditSpec.UndoOutcome)
      requires Valid()
      modifies this
      ensures Valid()
      ensures (Document(), outcome) == EditSpec.Undo(old(Document()))
      ensures breakerTypes == old(breakerTypes) && store == old(store) && drag == old(drag)
      ensures panelName == old(panelName) && panelDepth == old(panelDepth)
    {
      if undoStack == [] {
        return EditSpec.NothingToUndo;
      }
      var entry := undoStack[|undoStack| - 1];
      undoStack := undoStack[..|undoStack| - 1];
      match entry {
        case AddCubicleEntry(id) =>
          var removed := RemoveCubicle(id);
          outcome := if removed then EditSpec.Undone else EditSpec.TargetMissing;
        case AddBusbarEntry(id) =>
          var removed := RemoveBusbar(id);
          outcome := if removed then EditSpec.Undone else EditSpec.TargetMissing;
        case SelectEntry(id, k, j, previous) =>
          var present := RestoreSection(id, k, j, previous);
          outcome := if !present && previous.Some? then EditSpec.TargetMissing else EditSpec.Undone;
      }
    }

    /** `self.cubicles.remove(cubicle)`: the first cubicle with that canvas id
        leaves the list; `false` where `list.remove` raises because it is
        already gone. */
    method RemoveCubicle(id: int) returns (removed: bool)
      requires Valid()
      modifies this
      ensures Valid()
      ensures removed <==> EditSpec.CubicleIndex(old(cubicles), id).Some?
      ensures removed ==> var i := EditSpec.CubicleIndex(old(cubicles), id).value;
        cubicles == old(cubicles)[..i] + old(cubicles)[i + 1..]
      ensures !removed ==> cubicles == old(cubicles)
      ensures busbars == old(busbars) && undoStack == old(undoStack) && nextId == old(nextId)
      ensures breakerTypes == old(breakerTypes) && store == old(store) && drag == old(drag)
      ensures panelName == old(panelName) && panelDepth == old(panelDepth)
    {
      var found := FindCubicle(cubicles, id);
      if found.None? {
        return false;
      }
      EditSpec.RemoveCubicleValid(Document(), found.value);
      cubicles := cubicles[..found.value] + cubicles[found.value + 1..];
      removed := true;
    }

    /** `self.busbars.remove(busbar)`, likewise. */
    method RemoveBusbar(id: int) returns (removed: bool)
      requires Valid()
      modifies this
      ensures Valid()
      ensures removed <==> EditSpec.BusbarIndex(old(busbars), id).Some?
      ensures removed ==> var i := EditSpec.BusbarIndex(old(busbars), id).value;
        busbars == old(busbars)[..i] + old(busbars)[i + 1..]
      ensures !removed ==> busbars == old(busbars)
      ensures cubicles == old(cubicles) && undoStack == old(undoStack) && nextId == old(nextId)
      ensures breakerTypes == old(breakerTypes) && store == old(store) && drag == old(drag)
      ensures panelName == old(panelName) && panelDepth == old(panelDepth)
    {
      var found := FindLine(busbars, id);
      if found.None? {
        return false;
      }
      EditSpec.RemoveBusbarValid(Document(), found.value);
      busbars := busbars[..found.value] + busbars[found.value + 1..];
      removed := true;
    }

    /** Undoing a selection: the section recorded by position gets its
        previous item back, if its cubicle is still in the list; `present`
        says whether it is. */
    method RestoreSection(cubicleId: int, k: nat, j: nat, previous: Option<Item>) returns (present: bool)
      requires Valid()
      modifies this
      ensures Valid()
      ensures present <==> EditSpec.CubicleIndex(old(cubicles), cubicleId).Some?
      ensures cubicles == EditSpec.RestoreItem(old(cubicles), cubicleId, k, j, previous)
      ensures busbars == old(busbars) && undoStack == old(undoStack) && nextId == old(nextId)
      ensures breakerTypes == old(breakerTypes) && store == old(store) && drag == old(drag)
      ensures panelName == old(panelName) && panelDepth == old(panelDepth)
    {
      var found := FindCubicle(cubicles, cubicleId);
      present := found.Some?;
      if found.Some? && EditSpec.SectionExists(cubicles, found.value, k, j) {
        EditSpec.SetItemValid(Document(), found.value, k, j, previous);
        cubicles := EditSpec.SetItem(cubicles, found.value, k, j, previous);
      }
    }

    /** "Save Panel": refused without a panel; otherwise the record of the
        current panel is built cubicle by cubicle, compartment by compartment,
        section by section, and written under the panel's name. */
    method SavePanel() returns (saved: bool)
      modifies this
      ensures saved <==> old(HasPanel())
      ensures saved ==> store == old(store)[old(panelName).value :=
                                   Persistence.Save(old(Document()), info, old(panelDepth))]
      ensures !saved ==> store == old(store)
      ensures Document() == old(Document()) && breakerTypes == old(breakerTypes) && drag == old(drag)
      ensures panelName == old(panelName) && panelDepth == old(panelDepth)
    {
      if !HasPanel() {
        return false;
      }
      var records: seq<CubicleRecord> := [];
      for i := 0 to |cubicles|
        invariant |records| == i
        invariant forall ii :: 0 <= ii < i ==> records[ii] == Persistence.SaveCubicle(cubicles[ii])
      {
        var cub := cubicles[i];
        var comps: seq<CompartmentRecord> := [];
        for k := 0 to |cub.compartments|
          invariant |comps| == k
          invariant forall kk :: 0 <= kk < k ==> comps[kk] == Persistence.SaveCompartment(cub.compartments[kk])
        {
          var sections := cub.compartments[k].sections;
          var secs: seq<SectionRecord> := [];
          for j := 0 to |sections|
            invariant |secs| == j
            invariant forall jj :: 0 <= jj < j ==> secs[jj] == SectionRecord(sections[jj].name, sections[jj].item)
          {
            secs := secs + [SectionRecord(sections[j].name, sections[j].item)];
          }
          assert CompartmentRecord(secs) == Persistence.SaveCompartment(cub.compartments[k]);
          comps := comps + [CompartmentRecord(secs)];
        }
        assert CubicleRecord(cub.rect, cub.width, cub.height, comps) == Persistence.SaveCubicle(cub);
        records := records + [CubicleRecord(cub.rect, cub.width, cub.height, comps)];
      }
      var saved_busbars := seq(|busbars|, i requires 0 <= i < |busbars| reads this => busbars[i].data);
      var rec := PanelRecord(info, panelDepth, records, saved_busbars);
      assert rec == Persistence.Save(Document(), info, panelDepth);
      store := store[panelName.value := rec];
      saved := true;
    }

    /** The cubicle `load_panel` rebuilds from a saved one: a fresh rectangle
        at the saved coordinates, logged on the undo stack, cut into as many
        compartments as were saved, with the saved items written back by
        position. */
    method LoadCubicle(cr: CubicleRecord)
      requires Persistence.CubicleLoadable(cr)
      modifies this
      ensures Document() == Persistence.LoadCubicle(old(Document()), cr)
      ensures breakerTypes == old(breakerTypes) && store == old(store) && drag == old(drag)
      ensures panelName == old(panelName) && panelDepth == old(panelDepth)
    {
      var id := nextId;
      nextId := nextId + 1;
      var blank := Cubicle(id, cr.width, cr.height, cr.coords, []);
      cubicles := cubicles + [blank];
      undoStack := undoStack + [AddCubicleEntry(id)];
      var n := |cr.compartments|;
      if n > 0 {
        CreateCompartments(|cubicles| - 1, n);
      }
      var last := |cubicles| - 1;
      var cut := cubicles[last];
      assert cut == if n == 0 then blank else EditSpec.CreateCompartments(blank, n, id + 1);
      var restored := RestoreItems(cut.compartments, cr.compartments);
      assert cut.(compartments := restored) == Persistence.LoadedCubicle(id, cr);
      cubicles := cubicles[last := cut.(compartments := restored)];
    }

    /** Choosing a panel from the menu: the name becomes the current panel
        and the lists are emptied before the file is read; then the depth, the
        cubicles (each logged for undo) and the busbars (not logged) are
        rebuilt from the record. */
    method LoadPanel(name: string) returns (outcome: LoadOutcome)
      requires Valid()
      modifies this
      ensures Valid()
      ensures panelName == Some(name)
      ensures outcome == NotFound <==> name !in old(store)
      ensures outcome == Loaded <==> name in old(store) && Persistence.Loadable(old(store)[name])
      ensures outcome == Loaded ==>
        name in old(store) && Persistence.Loadable(old(store)[name]) &&
        Document() == Persistence.Load(old(Document()), old(store)[name]) &&
        panelDepth == old(store)[name].depth
      ensures outcome != Loaded ==>
        Document() == EditSpec.ClearPanel(old(Document())) && panelDepth == old(panelDepth)
      ensures breakerTypes == old(breakerTypes) && store == old(store) && drag == old(drag)
    {
      ghost var d0 := Document();
      panelName := Some(name);
      cubicles := [];
      busbars := [];
      assert Document() == EditSpec.ClearPanel(d0);
      assert EditSpec.Valid(Document());
      if name !in store {
        return NotFound;
      }
      var rec := store[name];
      if !Persistence.Loadable(rec) {
        return Unreadable;
      }
      Rebuild(d0, rec);
      outcome := Loaded;
    }

    /** The part of `load_panel` after the lists are emptied: the depth, then
        the cubicles, then the busbars of the record. */
    method Rebuild(ghost d0: PanelTypes.Doc, rec: PanelRecord)
      requires Persistence.Loadable(rec) && Document() == EditSpec.ClearPanel(d0)
      modifies this
      ensures Document() == Persistence.Load(d0, rec) && panelDepth == rec.depth
      ensures breakerTypes == old(breakerTypes) && store == old(store) && drag == old(drag)
      ensures panelName == old(panelName)
    {
      panelDepth := rec.depth;
      LoadCubicles(rec.cubicles);
      LoadBusbars(rec.busbars);
    }

    /** The cubicle loop of `load_panel`. */
    method LoadCubicles(crs: seq<CubicleRecord>)
      requires Persistence.CubiclesLoadable(crs)
      modifies this
      ensures Document() == Persistence.LoadCubicles(old(Document()), crs)
      ensures breakerTypes == old(breakerTypes) && store == old(store) && drag == old(drag)
      ensures panelName == old(panelName) && panelDepth == old(panelDepth)
    {
      for a := 0 to |crs|
        invariant Persistence.CubiclesLoadable(crs[..a])
        invariant Document() == Persistence.LoadCubicles(old(Document()), crs[..a])
        invariant breakerTypes == old(breakerTypes) && store == old(store) && drag == old(drag)
        invariant panelName == old(panelName) && panelDepth == old(panelDepth)
      {
        assert crs[..a + 1][..a] == crs[..a];
        LoadCubicle(crs[a]);
      }
      assert crs[..|crs|] == crs;
    }

    /** The busbar loop of `load_panel`: each saved busbar gets a new line and
        a new resize handle. */
    method LoadBusbars(bs: seq<BusbarData>)
      modifies this
      ensures Document() == Persistence.LoadBusbars(old(Document()), bs)
      ensures breakerTypes == old(breakerTypes) && store == old(store) && drag == old(drag)
      ensures panelName == old(panelName) && panelDepth == old(panelDepth)
    {
      var lines, next := busbars, nextId;
      for b := 0 to |bs|
        invariant unchanged(this)
        invariant Persistence.LoadBusbars(old(Document()), bs[..b]) == Doc(cubicles, lines, undoStack, next)
      {
        assert bs[..b + 1][..b] == bs[..b];
        lines := lines + [Busbar(next, next + 1, bs[b])];
        next := next + 2;
      }
      assert bs[..|bs|] == bs;
      busbars, nextId := lines, next;
    }

    /** "Upload Breaker Types": without the "Model No" and "Description"
        columns nothing is read; otherwise every row is stripped and added when
        its model is non-empty and new. Returns the count reported. */
    method LoadBreakerExcel(hasColumns: bool, rows: seq<(string, string)>) returns (added: nat)
      requires Valid()
      modifies this
      ensures Valid()
      ensures !hasColumns ==> breakerTypes == old(breakerTypes) && added == 0
      ensures hasColumns ==> (breakerTypes, added) == Catalog.ImportRows(old(breakerTypes), rows)
      ensures Document() == old(Document()) && store == old(store) && drag == old(drag)
      ensures panelName == old(panelName) && panelDepth == old(panelDepth)
    {
      if !hasColumns {
        return 0;
      }
      added := 0;
      for i := 0 to |rows|
        invariant (breakerTypes, added) == Catalog.ImportRows(old(breakerTypes), rows[..i])
        invariant Document() == old(Document()) && store == old(store) && drag == old(drag)
        invariant panelName == old(panelName) && panelDepth == old(panelDepth)
      {
        assert rows[..i + 1][..i] == rows[..i];
        ghost var before := breakerTypes;
        var model := Strip(rows[i].0);
        var desc := Strip(rows[i].1);
        if model != [] && !Catalog.HasModel(breakerTypes, model) {
          breakerTypes := breakerTypes + [Catalog.Breaker(model, desc)];
          added := added + 1;
        }
        assert breakerTypes == Catalog.ImportRow(before, rows[i]);
      }
      assert rows[..|rows|] == rows;
      Catalog.ImportRowsDistinct(old(breakerTypes), rows);
    }

    /** "Generate BOM": refused when the panel has no cubicle; otherwise the
        panel sheet's grid is built from the current cubicles and the project
        totals from the panel files of the group, read in the order `listing`
        names them (every file once). */
    method GenerateBom(listing: seq<string>) returns (r: Option<(seq<seq<string>>, Bom.Totals)>)
      requires Bom.Distinct(listing) && forall n :: n in listing <==> n in store
      ensures r.None? <==> cubicles == []
      ensures r.Some? ==> r.value.0 == [Bom.GridHeader] + Bom.GridRows(cubicles)
      ensures r.Some? ==> r.value.1 == Bom.Aggregate(store, listing, info, busbarTable)
      ensures r.Some? ==> Bom.Consistent(r.value.1)
      ensures r.Some? ==> Bom.Relevant(store, listing, info) == r.value.1.relevant
    {
      if cubicles == [] {
        return None;
      }
      var grid := Bom.ExportGrid(cubicles);
      var totals := Bom.AggregateTotals(store, listing, info, busbarTable);
      Bom.AggregateConsistent(store, listing, info, busbarTable);
      r := Some((grid, totals));
    }
  }
}
