/** The panel document: what `PanelDesigner` keeps in `self.cubicles`,
    `self.busbars` and `self.undo_stack`, and the record a saved panel is
    written as. Canvas item ids are abstract integers handed out by a counter,
    so every item created gets an id no earlier item has. */
module PanelTypes {
  import opened Wrappers

  /** Drawing units per millimetre. */
  const SCALE: real := 0.2

  /** The six fixed slots of every compartment, left to right. */
  const SECTION_NAMES: seq<string> :=
    ["Breaker", "ELR/EFR", "PFR", "Power Analyzer/Energy Meter", "Indicator Light", "SPD"]

  /** The sizes offered by the "Select Cubicle Size" dialog. */
  const CUBICLE_SIZES: seq<string> := [
    "600mm x 1800mm", "800mm x 1800mm", "1000mm x 1800mm",
    "600mm x 2000mm", "800mm x 2000mm", "1000mm x 2000mm",
    "600mm x 400mm", "800mm x 400mm", "1000mm x 400mm",
    "600mm x 600mm", "800mm x 600mm", "1000mm x 600mm"
  ]

  /** Canvas coordinates `[x1, y1, x2, y2]` of a rectangle or a line. */
  datatype Rect = Rect(x1: real, y1: real, x2: real, y2: real)

  /** A component chosen for a section: `{"model": ..., "desc": ...}`. */
  datatype Item = Item(model: string, desc: string)

  datatype Section = Section(name: string, id: int, rect: Rect, item: Option<Item>)

  datatype Compartment = Compartment(sections: seq<Section>)

  /** `width` and `height` are millimetres; `rect` is the drawn rectangle, whose
      top-left corner is the cubicle's `x`, `y`. */
  datatype Cubicle = Cubicle(id: int, width: int, height: int, rect: Rect, compartments: seq<Compartment>)

  datatype Orientation = Horizontal | Vertical

  /** The two kinds of busbar: one sized from amperage and current density, and a
      terminal whose catalogue size and number of runs are given. */
  datatype Sizing =
    | Computed(amperage: real, density: real)
    | CatalogSize(size: string, runs: int)

  /** A busbar as it is saved: everything but its canvas ids. */
  datatype BusbarData = BusbarData(orientation: Orientation, coords: Rect, phase: string, sizing: Sizing)

  /** A live busbar: its line's canvas id and the id of its resize handle. */
  datatype Busbar = Busbar(id: int, handle: int, data: BusbarData)

  /** An entry of the undo stack. A selection records where the section is (the
      cubicle's id and the section's position in it) and what it held before. */
  datatype UndoEntry =
    | AddCubicleEntry(cubicleId: int)
    | AddBusbarEntry(busbarId: int)
    | SelectEntry(cubicleId: int, compartment: nat, section: nat, previous: Option<Item>)

  /** The editable state of one panel, with the next unused canvas id. */
  datatype Doc = Doc(cubicles: seq<Cubicle>, busbars: seq<Busbar>, undo: seq<UndoEntry>, nextId: int)

  /** `drag_data`: the canvas item being dragged and the last pointer position. */
  datatype DragState = Idle | Dragging(item: int, lastX: int, lastY: int)

  /** The (customer, project, reference) triple that groups panels. */
  datatype ProjectInfo = ProjectInfo(customer: string, project: string, reference: string)

  // Saved form of a panel.

  datatype SectionRecord = SectionRecord(name: string, item: Option<Item>)

  datatype CompartmentRecord = CompartmentRecord(sections: seq<SectionRecord>)

  datatype CubicleRecord = CubicleRecord(coords: Rect, width: int, height: int, compartments: seq<CompartmentRecord>)

  datatype PanelRecord = PanelRecord(info: ProjectInfo, depth: Option<int>, cubicles: seq<CubicleRecord>, busbars: seq<BusbarData>)
}
