/** Saving and loading a panel. `save_panel` writes the project info, the depth,
    every cubicle's rectangle, size and compartments (each section's name and
    item) and the busbars; `load_panel` rebuilds the lists from such a record,
    drawing fresh canvas items. The JSON store is a map from panel name to
    record. */
module Persistence {
  import opened Wrappers
  import opened Text
  import opened PanelTypes
  import opened Layout
  import opened EditSpec

  // ---------------------------------------------------------------- save

  function SaveCompartment(c: Compartment): (r: CompartmentRecord)
    ensures |r.sections| == |c.sections|
    ensures forall j :: 0 <= j < |c.sections| ==>
      r.sections[j].name == c.sections[j].name && r.sections[j].item == c.sections[j].item
  {
    CompartmentRecord(seq(|c.sections|, j requires 0 <= j < |c.sections| =>
      SectionRecord(c.sections[j].name, c.sections[j].item)))
  }

  function SaveCubicle(c: Cubicle): (r: CubicleRecord)
    ensures r.coords == c.rect && r.width == c.width && r.height == c.height
    ensures |r.compartments| == |c.compartments|
    ensures forall k :: 0 <= k < |c.compartments| ==> r.compartments[k] == SaveCompartment(c.compartments[k])
  {
    CubicleRecord(c.rect, c.width, c.height,
      seq(|c.compartments|, k requires 0 <= k < |c.compartments| => SaveCompartment(c.compartments[k])))
  }

  /** The record `save_panel` writes: canvas ids and text ids are dropped, the
      busbars are written as they are. */
  function Save(d: Doc, info: ProjectInfo, depth: Option<int>): (r: PanelRecord)
    ensures r.info == info && r.depth == depth
    ensures |r.cubicles| == |d.cubicles|
    ensures forall i :: 0 <= i < |d.cubicles| ==> r.cubicles[i] == SaveCubicle(d.cubicles[i])
    ensures |r.busbars| == |d.busbars|
    ensures forall i :: 0 <= i < |d.busbars| ==> r.busbars[i] == d.busbars[i].data
  {
    PanelRecord(info, depth,
      seq(|d.cubicles|, i requires 0 <= i < |d.cubicles| => SaveCubicle(d.cubicles[i])),
      seq(|d.busbars|, i requires 0 <= i < |d.busbars| => d.busbars[i].data))
  }

  /** A saved compartment lists the six sections in `SECTION_NAMES` order, as
      every compartment `save_panel` writes does. */
  predicate CanonicalCompartment(c: CompartmentRecord) {
    |c.sections| == |SECTION_NAMES| &&
    forall j :: 0 <= j < |SECTION_NAMES| ==> c.sections[j].name == SECTION_NAMES[j]
  }

  predicate Canonical(rec: PanelRecord) {
    forall i, k :: 0 <= i < |rec.cubicles| && 0 <= k < |rec.cubicles[i].compartments| ==>
      CanonicalCompartment(rec.cubicles[i].compartments[k])
  }

  /** Every saved section holding an item sits at a position below `n`. */
  predicate ItemsWithin(saved: CompartmentRecord, n: nat) {
    forall j :: n <= j < |saved.sections| ==> saved.sections[j].item.None?
  }

  /** What `load_panel` needs of a record: in every saved compartment, each
      section that holds an item has a counterpart in a freshly cut band of six
      (the source looks up the band's section by the saved section's position,
      and only for sections with an item). */
  predicate Loadable(rec: PanelRecord) {
    CubiclesLoadable(rec.cubicles)
  }

  predicate CubicleLoadable(cr: CubicleRecord) {
    forall k :: 0 <= k < |cr.compartments| ==> ItemsWithin(cr.compartments[k], |SECTION_NAMES|)
  }

  predicate CubiclesLoadable(crs: seq<CubicleRecord>) {
    forall i :: 0 <= i < |crs| ==> CubicleLoadable(crs[i])
  }

  /** Every panel the editor can save is canonical. */
  lemma SaveIsCanonical(d: Doc, info: ProjectInfo, depth: Option<int>)
    requires Valid(d)
    ensures Canonical(Save(d, info, depth)) && Loadable(Save(d, info, depth))
  {
    var r := Save(d, info, depth);
    forall i, k | 0 <= i < |r.cubicles| && 0 <= k < |r.cubicles[i].compartments|
      ensures CanonicalCompartment(r.cubicles[i].compartments[k])
    {
      assert WellShaped(d.cubicles[i]);
      assert SectionsNamed(d.cubicles[i].compartments[k]);
    }
  }

  // ---------------------------------------------------------------- load

  /** The saved items written into a freshly cut band, by position; positions
      whose saved item is empty keep the band's empty section, and saved
      sections past the band's end are passed over. */
  function RestoreCompartment(comp: Compartment, saved: CompartmentRecord): (r: Compartment)
    ensures |r.sections| == |comp.sections|
    ensures forall j :: 0 <= j < |comp.sections| ==>
      r.sections[j].name == comp.sections[j].name && r.sections[j].id == comp.sections[j].id &&
      r.sections[j].rect == comp.sections[j].rect
    ensures forall j :: 0 <= j < |saved.sections| && j < |comp.sections| && saved.sections[j].item.Some? ==>
      r.sections[j].item == saved.sections[j].item
    ensures forall j :: 0 <= j < |comp.sections| && (j >= |saved.sections| || saved.sections[j].item.None?) ==>
      r.sections[j] == comp.sections[j]
  {
    Compartment(seq(|comp.sections|, j requires 0 <= j < |comp.sections| =>
      if j < |saved.sections| && saved.sections[j].item.Some?
      then comp.sections[j].(item := saved.sections[j].item)
      else comp.sections[j]))
  }

  /** The cubicle `load_panel` rebuilds from a saved one, with canvas id `id`:
      its rectangle is the saved one, it is cut into as many compartments as
      were saved (none when none were saved), and the saved items are written
      back by position. */
  function LoadedCubicle(id: int, cr: CubicleRecord): (c: Cubicle)
    requires CubicleLoadable(cr)
    ensures c.id == id && c.width == cr.width && c.height == cr.height && c.rect == cr.coords
    ensures |c.compartments| == |cr.compartments|
    ensures WellShaped(c)
  {
    var c := Cubicle(id, cr.width, cr.height, cr.coords, []);
    var n := |cr.compartments|;
    assert WellShaped(c);
    var cut := if n == 0 then c else CreateCompartments(c, n, id + 1);
    assert WellShaped(cut) && |cut.compartments| == n;
    var restored := seq(n, k requires 0 <= k < n =>
      RestoreCompartment(cut.compartments[k], cr.compartments[k]));
    assert forall k :: 0 <= k < n ==> SectionsNamed(restored[k]) by {
      forall k | 0 <= k < n ensures SectionsNamed(restored[k]) {
        assert SectionsNamed(cut.compartments[k]);
      }
    }
    Cubicle(id, cr.width, cr.height, cr.coords, restored)
  }

  /** One iteration of the cubicle loop: the rebuilt cubicle is appended and an
      `add_cubicle` entry is pushed on the undo stack. */
  function LoadCubicle(d: Doc, cr: CubicleRecord): (r: Doc)
    requires CubicleLoadable(cr)
    ensures r.cubicles == d.cubicles + [LoadedCubicle(d.nextId, cr)]
    ensures r.busbars == d.busbars && r.undo == d.undo + [AddCubicleEntry(d.nextId)]
    ensures r.nextId > d.nextId
  {
    Doc(d.cubicles + [LoadedCubicle(d.nextId, cr)], d.busbars, d.undo + [AddCubicleEntry(d.nextId)],
        d.nextId + 1 + |SECTION_NAMES| * |cr.compartments|)
  }

  /** The cubicle loop of `load_panel`, over the saved cubicles in order. */
  function LoadCubicles(d: Doc, crs: seq<CubicleRecord>): (r: Doc)
    requires CubiclesLoadable(crs)
    ensures |r.cubicles| == |d.cubicles| + |crs| && r.cubicles[..|d.cubicles|] == d.cubicles
    ensures forall i :: 0 <= i < |crs| ==>
      r.cubicles[|d.cubicles| + i] == LoadedCubicle(r.cubicles[|d.cubicles| + i].id, crs[i])
    ensures r.busbars == d.busbars
    ensures |r.undo| == |d.undo| + |crs| && r.undo[..|d.undo|] == d.undo
    ensures forall i :: |d.undo| <= i < |r.undo| ==> r.undo[i].AddCubicleEntry?
    ensures r.nextId >= d.nextId
    decreases |crs|
  {
    if crs == [] then d
    else
      var n := |crs| - 1;
      PrefixLoadable(crs, n);
      var prev := LoadCubicles(d, crs[..n]);
      var r := LoadCubicle(prev, crs[n]);
      assert forall i :: 0 <= i < n ==> crs[..n][i] == crs[i];
      assert r.cubicles[|d.cubicles| + n] == LoadedCubicle(prev.nextId, crs[n]);
      r
  }

  lemma PrefixLoadable(crs: seq<CubicleRecord>, n: nat)
    requires CubiclesLoadable(crs) && n <= |crs|
    ensures CubiclesLoadable(crs[..n])
  {
    forall i | 0 <= i < n ensures CubicleLoadable(crs[..n][i]) { assert crs[..n][i] == crs[i]; }
  }

  /** Loading cubicles into a valid document keeps it valid: every new cubicle
      is well shaped and its id is below the next free id. */
  lemma {:induction false} LoadCubiclesValid(d: Doc, crs: seq<CubicleRecord>)
    requires CubiclesLoadable(crs) && Valid(d)
    ensures Valid(LoadCubicles(d, crs))
    decreases |crs|
  {
    if crs != [] {
      var n := |crs| - 1;
      PrefixLoadable(crs, n);
      LoadCubiclesValid(d, crs[..n]);
      var prev := LoadCubicles(d, crs[..n]);
      var r := LoadCubicle(prev, crs[n]);
      assert LoadCubicles(d, crs) == r;
      forall i | 0 <= i < |r.cubicles| ensures r.cubicles[i].id < r.nextId && WellShaped(r.cubicles[i]) {
        if i < |prev.cubicles| { assert r.cubicles[i] == prev.cubicles[i]; }
      }
    }
  }

  function LoadBusbar(d: Doc, b: BusbarData): (r: Doc)
    ensures r.cubicles == d.cubicles && r.undo == d.undo
    ensures r.busbars == d.busbars + [Busbar(d.nextId, d.nextId + 1, b)]
    ensures r.nextId == d.nextId + 2
  {
    d.(busbars := d.busbars + [Busbar(d.nextId, d.nextId + 1, b)], nextId := d.nextId + 2)
  }

  /** The busbar loop of `load_panel`: every saved busbar gets a new line and a
      new resize handle, and none is logged on the undo stack. */
  function LoadBusbars(d: Doc, bs: seq<BusbarData>): (r: Doc)
    ensures r.cubicles == d.cubicles && r.undo == d.undo
    ensures |r.busbars| == |d.busbars| + |bs| && r.busbars[..|d.busbars|] == d.busbars
    ensures forall i :: 0 <= i < |bs| ==> r.busbars[|d.busbars| + i].data == bs[i]
    ensures r.nextId >= d.nextId
    ensures Valid(d) ==> Valid(r)
    decreases |bs|
  {
    if bs == [] then d
    else
      var n := |bs| - 1;
      var prev := LoadBusbars(d, bs[..n]);
      var r := LoadBusbar(prev, bs[n]);
      assert forall i :: 0 <= i < n ==> bs[..n][i] == bs[i];
      assert Valid(prev) ==> Valid(r) by {
        if Valid(prev) {
          forall i | 0 <= i < |r.busbars| ensures r.busbars[i].id < r.nextId && r.busbars[i].handle < r.nextId {
            if i < |prev.busbars| { assert r.busbars[i] == prev.busbars[i]; }
          }
        }
      }
      r
  }

  /** `load_panel` with the zero-compartment case handled: the lists are
      cleared (the undo stack is kept), then the saved cubicles and busbars are
      rebuilt in order. The depth is the saved one. */
  function Load(d: Doc, rec: PanelRecord): (r: Doc)
    requires Loadable(rec)
    ensures Valid(r)
    ensures |r.undo| == |d.undo| + |rec.cubicles| && r.undo[..|d.undo|] == d.undo
    ensures forall i :: |d.undo| <= i < |r.undo| ==> r.undo[i].AddCubicleEntry?
  {
    assert Valid(ClearPanel(d));
    LoadCubiclesValid(ClearPanel(d), rec.cubicles);
    LoadBusbars(LoadCubicles(ClearPanel(d), rec.cubicles), rec.busbars)
  }

  // ---------------------------------------------------------------- round trips

  lemma RestoredSaves(comp: Compartment, saved: CompartmentRecord)
    requires SectionsNamed(comp) && CanonicalCompartment(saved)
    requires forall j :: 0 <= j < |comp.sections| ==> comp.sections[j].item == None
    ensures SaveCompartment(RestoreCompartment(comp, saved)) == saved
  {
    var r := SaveCompartment(RestoreCompartment(comp, saved));
    assert forall j :: 0 <= j < |saved.sections| ==> r.sections[j] == saved.sections[j];
  }

  /** A rebuilt cubicle saves back to the record it was rebuilt from. */
  lemma LoadedCubicleSaves(id: int, cr: CubicleRecord)
    requires forall k :: 0 <= k < |cr.compartments| ==> CanonicalCompartment(cr.compartments[k])
    ensures CubicleLoadable(cr)
    ensures SaveCubicle(LoadedCubicle(id, cr)) == cr
  {
    forall k | 0 <= k < |cr.compartments| ensures ItemsWithin(cr.compartments[k], |SECTION_NAMES|) {
      assert CanonicalCompartment(cr.compartments[k]);
    }
    var c := LoadedCubicle(id, cr);
    forall k | 0 <= k < |cr.compartments| ensures SaveCompartment(c.compartments[k]) == cr.compartments[k] {
      LoadedCompartmentSaves(id, cr, k);
    }
    assert SaveCubicle(c).compartments == cr.compartments;
  }

  lemma LoadedCompartmentSaves(id: int, cr: CubicleRecord, k: nat)
    requires CubicleLoadable(cr) && k < |cr.compartments| && CanonicalCompartment(cr.compartments[k])
    ensures SaveCompartment(LoadedCubicle(id, cr).compartments[k]) == cr.compartments[k]
  {
    var c := LoadedCubicle(id, cr);
    var n := |cr.compartments|;
    var blank := Cubicle(id, cr.width, cr.height, cr.coords, []);
    var cut := CreateCompartments(blank, n, id + 1);
    var band := cut.compartments[k];
    assert c.compartments[k] == RestoreCompartment(band, cr.compartments[k]);
    assert band == Band(blank.rect, k, (blank.rect.y2 - blank.rect.y1) / n as real,
                        id + 1 + |SECTION_NAMES| * (k - |blank.compartments|));
    RestoredSaves(band, cr.compartments[k]);
  }

  /** Loading a record that `save_panel` could have written and saving again
      writes the same record: depth, every cubicle's rectangle, width, height
      and compartments, each section's name and item by position, and the
      busbars all come back. */
  lemma SaveAfterLoad(d: Doc, rec: PanelRecord)
    requires Canonical(rec)
    ensures Loadable(rec)
    ensures Save(Load(d, rec), rec.info, rec.depth) == rec
  {
    var d0 := ClearPanel(d);
    var d1 := LoadCubicles(d0, rec.cubicles);
    var r := Load(d, rec);
    var s := Save(r, rec.info, rec.depth);
    forall i | 0 <= i < |rec.cubicles| ensures s.cubicles[i] == rec.cubicles[i] {
      LoadedCubicleSaves(r.cubicles[i].id, rec.cubicles[i]);
    }
    assert s.cubicles == rec.cubicles;
    assert s.busbars == rec.busbars;
  }

  /** Saving, loading and saving again writes what the first save wrote. */
  lemma SaveLoadSave(d: Doc, current: Doc, info: ProjectInfo, depth: Option<int>)
    requires Valid(d)
    ensures Loadable(Save(d, info, depth))
    ensures Save(Load(current, Save(d, info, depth)), info, depth) == Save(d, info, depth)
  {
    SaveIsCanonical(d, info, depth);
    SaveAfterLoad(current, Save(d, info, depth));
  }

  /** The attributes `load_panel` restores, one by one: each cubicle's width,
      height and top-left corner (`coords[0]`, `coords[1]`), its compartment
      count, each section's item by position, and the busbar list. */
  lemma LoadRestores(d: Doc, rec: PanelRecord)
    requires Canonical(rec)
    ensures Loadable(rec)
    ensures var r := Load(d, rec);
            && |r.cubicles| == |rec.cubicles|
            && (forall i :: 0 <= i < |rec.cubicles| ==>
                  && r.cubicles[i].width == rec.cubicles[i].width
                  && r.cubicles[i].height == rec.cubicles[i].height
                  && r.cubicles[i].rect.x1 == rec.cubicles[i].coords.x1
                  && r.cubicles[i].rect.y1 == rec.cubicles[i].coords.y1
                  && |r.cubicles[i].compartments| == |rec.cubicles[i].compartments|)
            && (forall i, k, j ::
                  (0 <= i < |rec.cubicles| && 0 <= k < |rec.cubicles[i].compartments| &&
                   0 <= j < |rec.cubicles[i].compartments[k].sections|) ==>
                  (j < |r.cubicles[i].compartments[k].sections| &&
                   r.cubicles[i].compartments[k].sections[j].item == rec.cubicles[i].compartments[k].sections[j].item))
            && |r.busbars| == |rec.busbars|
            && (forall i :: 0 <= i < |rec.busbars| ==> r.busbars[i].data == rec.busbars[i])
  {
    SaveAfterLoad(d, rec);
    var r := Load(d, rec);
    var s := Save(r, rec.info, rec.depth);
    forall i, k, j | 0 <= i < |rec.cubicles| && 0 <= k < |rec.cubicles[i].compartments| &&
                     0 <= j < |rec.cubicles[i].compartments[k].sections|
      ensures j < |r.cubicles[i].compartments[k].sections|
      ensures r.cubicles[i].compartments[k].sections[j].item == rec.cubicles[i].compartments[k].sections[j].item
    {
      assert s.cubicles[i] == rec.cubicles[i];
      assert SaveCubicle(r.cubicles[i]).compartments[k] == rec.cubicles[i].compartments[k];
    }
    forall i | 0 <= i < |rec.busbars| ensures r.busbars[i].data == rec.busbars[i] {
      assert s.busbars[i] == rec.busbars[i];
    }
  }

  // ---------------------------------------------------------------- load as written

  /** One iteration of the cubicle loop as the source has it: the cubicle is
      appended and logged, then `create_compartments` divides the cubicle's
      height by the saved compartment count, which raises `ZeroDivisionError`
      when that count is 0. The failure carries the state left behind. */
  function LoadCubicleAsWritten(d: Doc, cr: CubicleRecord): (r: Result<Doc, Doc>)
    requires CubicleLoadable(cr)
    ensures |cr.compartments| > 0 <==> r.Success?
    ensures r.Success? ==> r.value == LoadCubicle(d, cr)
    ensures r.Failure? ==> r.error.cubicles == d.cubicles + [Cubicle(d.nextId, cr.width, cr.height, cr.coords, [])]
  {
    if |cr.compartments| == 0 then
      Failure(Doc(d.cubicles + [Cubicle(d.nextId, cr.width, cr.height, cr.coords, [])], d.busbars,
                  d.undo + [AddCubicleEntry(d.nextId)], d.nextId + 1))
    else Success(LoadCubicle(d, cr))
  }

  function LoadCubiclesAsWritten(d: Doc, crs: seq<CubicleRecord>): (r: Result<Doc, Doc>)
    requires CubiclesLoadable(crs)
    ensures (if r.Success? then r.value else r.error).busbars == d.busbars
    ensures r.Failure? ==> r.error.cubicles != [] && r.error.cubicles[|r.error.cubicles| - 1].compartments == []
    decreases |crs|
  {
    if crs == [] then Success(d)
    else
      var n := |crs| - 1;
      PrefixLoadable(crs, n);
      match LoadCubiclesAsWritten(d, crs[..n])
      case Failure(partial) => Failure(partial)
      case Success(prev) => LoadCubicleAsWritten(prev, crs[n])
  }

  /** `load_panel` as written: a saved cubicle without compartments stops the
      load with the exception, after clearing the lists and rebuilding the
      cubicles before it; no busbar is loaded. */
  function LoadAsWritten(d: Doc, rec: PanelRecord): (r: Result<Doc, Doc>)
    requires Loadable(rec)
    ensures r.Failure? ==> r.error.busbars == []
    ensures r.Failure? ==> r.error.cubicles != [] && r.error.cubicles[|r.error.cubicles| - 1].compartments == []
    ensures r.Success? ==> |r.value.busbars| == |rec.busbars|
  {
    match LoadCubiclesAsWritten(ClearPanel(d), rec.cubicles)
    case Failure(partial) => Failure(partial)
    case Success(d1) => Success(LoadBusbars(d1, rec.busbars))
  }

  /** The cubicle loop as written gets through exactly when every saved
      cubicle has compartments. */
  lemma {:induction false} CubiclesAsWrittenSucceed(d: Doc, crs: seq<CubicleRecord>)
    requires CubiclesLoadable(crs)
    ensures LoadCubiclesAsWritten(d, crs).Success? <==>
            forall i :: 0 <= i < |crs| ==> |crs[i].compartments| > 0
    decreases |crs|
  {
    if crs != [] {
      var n := |crs| - 1;
      PrefixLoadable(crs, n);
      CubiclesAsWrittenSucceed(d, crs[..n]);
      assert forall i :: 0 <= i < n ==> crs[..n][i] == crs[i];
    }
  }

  /** When it gets through, the cubicle loop as written builds what
      `LoadCubicles` builds. */
  lemma {:induction false} CubiclesAsWritten(d: Doc, crs: seq<CubicleRecord>)
    requires CubiclesLoadable(crs)
    ensures LoadCubiclesAsWritten(d, crs).Success? ==>
            LoadCubiclesAsWritten(d, crs).value == LoadCubicles(d, crs)
    decreases |crs|
  {
    if crs != [] {
      var n := |crs| - 1;
      PrefixLoadable(crs, n);
      CubiclesAsWritten(d, crs[..n]);
    }
  }

  /** The load as written fails exactly when some saved cubicle has no
      compartments, and otherwise agrees with `Load`. */
  lemma LoadAsWrittenAgrees(d: Doc, rec: PanelRecord)
    requires Loadable(rec)
    ensures LoadAsWritten(d, rec).Success? <==>
            forall i :: 0 <= i < |rec.cubicles| ==> |rec.cubicles[i].compartments| > 0
    ensures LoadAsWritten(d, rec).Success? ==> LoadAsWritten(d, rec).value == Load(d, rec)
  {
    CubiclesAsWrittenSucceed(ClearPanel(d), rec.cubicles);
    CubiclesAsWritten(ClearPanel(d), rec.cubicles);
  }

  /** A cubicle added with the compartment prompt cancelled is saved with no
      compartments; the saved panel then cannot be loaded by the source, while
      `Load` reads it back. */
  lemma CancelledPromptBreaksLoad(info: ProjectInfo)
    ensures var d := AddCubicle(Doc([], [], [], 1), 600, 1800, 0);
            var rec := Save(d, info, Some(600));
            && Valid(d)
            && Loadable(rec)
            && LoadAsWritten(d, rec).Failure?
            && Save(Load(d, rec), info, Some(600)) == rec
  {
    var d := AddCubicle(Doc([], [], [], 1), 600, 1800, 0);
    var rec := Save(d, info, Some(600));
    assert |rec.cubicles[0].compartments| == 0;
    SaveIsCanonical(d, info, Some(600));
    LoadAsWrittenAgrees(d, rec);
    SaveAfterLoad(d, rec);
  }

  // ---------------------------------------------------------------- the store

  /** `load_saved_panels`: the names of the stored panels whose project info is
      exactly the designer's (customer, project, reference), each once, in the
      order the store happens to list them. */
  method PanelsForGroup(store: map<string, PanelRecord>, info: ProjectInfo) returns (names: seq<string>)
    ensures forall n :: n in names <==> n in store && store[n].info == info
    ensures forall i, j :: 0 <= i < j < |names| ==> names[i] != names[j]
  {
    names := [];
    var todo := store.Keys;
    while todo != {}
      invariant todo <= store.Keys
      invariant forall n :: n in names <==> n in store && n !in todo && store[n].info == info
      invariant forall i, j :: 0 <= i < j < |names| ==> names[i] != names[j]
      decreases |todo|
    {
      var n :| n in todo;
      if store[n].info == info {
        names := names + [n];
      }
      todo := todo - {n};
    }
  }

  /** The triple `load_all_projects` files a panel under: its project info with
      surrounding whitespace removed. */
  function GroupKey(info: ProjectInfo): (r: (string, string, string))
    ensures Strip(r.0) == r.0 && Strip(r.1) == r.1 && Strip(r.2) == r.2
  {
    StripIdempotent(info.customer);
    StripIdempotent(info.project);
    StripIdempotent(info.reference);
    (Strip(info.customer), Strip(info.project), Strip(info.reference))
  }

  /** The display name of a project group. */
  function GroupDisplay(key: (string, string, string)): string {
    key.0 + " | " + key.1 + " | " + key.2
  }

  lemma DisplaySplits(key: (string, string, string))
    requires '|' !in key.0 && '|' !in key.1 && '|' !in key.2
    ensures Split(GroupDisplay(key), '|') == [key.0 + " ", " " + key.1 + " ", " " + key.2]
  {
    var parts := [key.0 + " ", " " + key.1 + " ", " " + key.2];
    assert parts[1..][1..] == [parts[2]];
    assert Join(parts[1..], '|') == parts[1] + ['|'] + parts[2];
    assert Join(parts, '|') == parts[0] + ['|'] + (parts[1] + ['|'] + parts[2]);
    assert Join(parts, '|') == GroupDisplay(key);
    assert forall i :: 0 <= i < 3 ==> '|' !in parts[i];
    SplitOfJoin(parts, '|');
  }

  /** The startup screen finds the group back from the display name chosen;
      that finds the right group whenever no part of it contains `|`. */
  lemma DisplayInjective(a: (string, string, string), b: (string, string, string))
    requires '|' !in a.0 && '|' !in a.1 && '|' !in a.2
    requires '|' !in b.0 && '|' !in b.1 && '|' !in b.2
    requires GroupDisplay(a) == GroupDisplay(b)
    ensures a == b
  {
    DisplaySplits(a);
    DisplaySplits(b);
    var pa := Split(GroupDisplay(a), '|');
    assert a.0 == pa[0][..|pa[0]| - 1] == b.0;
    assert a.1 == pa[1][1..|pa[1]| - 1] == b.1;
    assert a.2 == pa[2][1..] == b.2;
  }

  predicate Listed(info: ProjectInfo) {
    var k := GroupKey(info);
    k.0 != [] && k.1 != [] && k.2 != []
  }

  /** `load_all_projects`: every stored panel whose stripped customer, project
      and reference are all non-empty files its group under the stripped
      triple, shown as "customer | project | ref". */
  method AllProjects(store: map<string, PanelRecord>) returns (projects: map<(string, string, string), string>)
    ensures forall k :: k in projects <==> exists n :: n in store && Listed(store[n].info) && GroupKey(store[n].info) == k
    ensures forall k :: k in projects ==> projects[k] == GroupDisplay(k)
  {
    projects := map[];
    var todo := store.Keys;
    while todo != {}
      invariant todo <= store.Keys
      invariant forall k :: k in projects <==>
        exists n :: n in store && n !in todo && Listed(store[n].info) && GroupKey(store[n].info) == k
      invariant forall k :: k in projects ==> projects[k] == GroupDisplay(k)
      decreases |todo|
    {
      var n :| n in todo;
      var key := GroupKey(store[n].info);
      if key.0 != [] && key.1 != [] && key.2 != [] {
        projects := projects[key := GroupDisplay(key)];
      }
      todo := todo - {n};
    }
  }
}
