/** The bill of materials of `generate_bom`: the per-panel export grid, the
    busbar sizing lookup, the quantity of each busbar, and the project-wide
    totals accumulated over every stored panel of the designer's group. Each
    total keeps, next to its overall count, the count per panel (Python's
    nested `defaultdict`s). */
module Bom {
  import opened Wrappers
  import opened Text
  import opened PanelTypes
  import opened EditSpec

  // ---------------------------------------------------------------- sizing table

  /** A row of the busbar sizing table: "Part no", "Item description",
      "Area (sqmm)" and the optional "No. of runs". */
  datatype SizingRow = SizingRow(partNo: string, desc: string, area: real, runs: Option<int>)

  /** `find_nearest_highest_busbar`: among the rows whose area is at least
      `area`, the first one of least area; none when the table is empty or no
      row is large enough. */
  function NearestFit(table: seq<SizingRow>, area: real): (r: Option<nat>)
    ensures r.Some? ==> r.value < |table| && table[r.value].area >= area
    ensures r.Some? ==> forall i :: 0 <= i < |table| && table[i].area >= area ==> table[r.value].area <= table[i].area
    ensures r.Some? ==> forall i :: 0 <= i < r.value && table[i].area >= area ==> table[i].area > table[r.value].area
    ensures r.None? <==> forall i :: 0 <= i < |table| ==> table[i].area < area
    decreases |table|
  {
    if table == [] then None
    else
      var n := |table| - 1;
      var prev := NearestFit(table[..n], area);
      assert forall i :: 0 <= i < n ==> table[..n][i] == table[i];
      if table[n].area >= area && (prev.None? || table[n].area < table[prev.value].area) then Some(n)
      else prev
  }

  // ---------------------------------------------------------------- quantities

  /** Python's `int(x)` on a float: truncation toward zero. */
  function Trunc(x: real): (r: int)
    ensures 0.0 <= x ==> r as real <= x < r as real + 1.0
    ensures x < 0.0 ==> r as real - 1.0 < x <= r as real
  {
    if x >= 0.0 then x.Floor else -((-x).Floor)
  }

  /** `max(0, int(length))`. */
  function ClampedLength(length: real): (r: nat)
    ensures r as real <= (if length < 0.0 then 0.0 else length) < r as real + 1.0
  {
    if length < 0.0 then 0 else length.Floor
  }

  lemma ClampedIsPythonMax(length: real)
    ensures ClampedLength(length) == if Trunc(length) < 0 then 0 else Trunc(length)
  {
    if length < 0.0 {
      assert (-length).Floor >= 0;
    }
  }

  /** A busbar's line on the bill: part number, description and quantity. */
  datatype Contribution = Contribution(key: string, desc: string, qty: int)

  function NoMatchKey(counter: nat): string {
    "NO_MATCH_" + NatToString(counter)
  }

  /** The description of an unmatched busbar; the numbers the source formats
      into it are not modelled. */
  function NoMatchDesc(phase: string): string {
    "No match for Phase=" + phase
  }

  function PhaseMultiplier(phase: string): (m: int)
    ensures m == 2 || m == 4
    ensures m == 2 <==> phase == "Single Phase"
  {
    if phase == "Single Phase" then 2 else 4
  }

  /** What one saved busbar adds to the bill, and the unmatched-busbar counter
      afterwards. A terminal with a catalogue size adds its clamped length times
      its runs under that size. A computed busbar with positive amperage and
      current density is looked up by the area amperage / density: a match
      adds clamped length times the row's runs (1 if the table has none) times
      2 for single phase or 4 otherwise; no match adds a zero line under a
      fresh `NO_MATCH_<n>` key and advances the counter. Anything else is
      skipped. */
  function Contribute(b: BusbarData, table: seq<SizingRow>, counter: nat): (r: (Option<Contribution>, nat))
    ensures r.1 == counter || r.1 == counter + 1
    ensures r.1 == counter + 1 ==> r.0 == Some(Contribution(NoMatchKey(counter), NoMatchDesc(b.phase), 0))
    ensures r.0.None? <==>
      match b.sizing
      case CatalogSize(size, _) => size == []
      case Computed(amp, cd) => !(cd > 0.0 && amp > 0.0)
    ensures b.sizing.CatalogSize? && b.sizing.size != [] ==>
      r == (Some(Contribution(b.sizing.size, b.sizing.size, ClampedLength(Length(b)) * b.sizing.runs)), counter)
    ensures b.sizing.Computed? && r.0.Some? && r.1 == counter ==>
      exists i :: 0 <= i < |table| && NearestFit(table, b.sizing.amperage / b.sizing.density) == Some(i) &&
        r.0.value == Contribution(table[i].partNo, table[i].desc,
          ClampedLength(Length(b)) * table[i].runs.GetOr(1) * PhaseMultiplier(b.phase))
  {
    match b.sizing
    case CatalogSize(size, runs) =>
      if size != [] then (Some(Contribution(size, size, ClampedLength(Length(b)) * runs)), counter)
      else (None, counter)
    case Computed(amp, cd) =>
      if cd > 0.0 && amp > 0.0 then
        match NearestFit(table, amp / cd)
        case None => (Some(Contribution(NoMatchKey(counter), NoMatchDesc(b.phase), 0)), counter + 1)
        case Some(i) =>
          var row := table[i];
          (Some(Contribution(row.partNo, row.desc,
             ClampedLength(Length(b)) * row.runs.GetOr(1) * PhaseMultiplier(b.phase))), counter)
      else (None, counter)
  }

  /** Every unmatched busbar gets a key of its own. */
  lemma NoMatchKeysDistinct(a: nat, b: nat)
    requires a != b
    ensures NoMatchKey(a) != NoMatchKey(b)
  {
    NatToStringInjective(a, b);
    var p := "NO_MATCH_";
    assert NoMatchKey(a)[|p|..] == NatToString(a);
    assert NoMatchKey(b)[|p|..] == NatToString(b);
  }

  // ---------------------------------------------------------------- tallies

  function Get(m: map<string, int>, k: string): int {
    if k in m then m[k] else 0
  }

  predicate Distinct(names: seq<string>) {
    forall i, j :: 0 <= i < j < |names| ==> names[i] != names[j]
  }

  /** The sum of the per-panel counts over the listed panels. */
  function SumOver(names: seq<string>, m: map<string, int>): int
    decreases |names|
  {
    if names == [] then 0 else SumOver(names[..|names| - 1], m) + Get(m, names[|names| - 1])
  }

  lemma {:induction false} SumOverOther(names: seq<string>, m: map<string, int>, p: string, v: int)
    requires p !in names
    ensures SumOver(names, m[p := v]) == SumOver(names, m)
    decreases |names|
  {
    if names != [] {
      SumOverOther(names[..|names| - 1], m, p, v);
    }
  }

  lemma {:induction false} SumOverBump(names: seq<string>, m: map<string, int>, p: string, q: int)
    requires p in names && Distinct(names)
    ensures SumOver(names, m[p := Get(m, p) + q]) == SumOver(names, m) + q
    decreases |names|
  {
    var n := |names| - 1;
    var front := names[..n];
    if names[n] == p {
      assert p !in front;
      SumOverOther(front, m, p, Get(m, p) + q);
    } else {
      assert p in front;
      SumOverBump(front, m, p, q);
    }
  }

  lemma {:induction false} SumOverEmpty(names: seq<string>)
    ensures SumOver(names, map[]) == 0
    decreases |names|
  {
    if names != [] {
      SumOverEmpty(names[..|names| - 1]);
    }
  }

  lemma SumOverAppend(names: seq<string>, m: map<string, int>, p: string)
    requires p !in m
    ensures SumOver(names + [p], m) == SumOver(names, m)
  {
    assert (names + [p])[..|names|] == names;
  }

  /** A total with its per-panel counts. */
  datatype Tally = Tally(desc: string, total: int, panels: map<string, int>)

  /** The total is the sum of the per-panel counts, and only listed panels
      have counts. */
  predicate TallyConsistent(t: Tally, names: seq<string>) {
    t.total == SumOver(names, t.panels) && forall k :: k in t.panels ==> k in names
  }

  predicate MapConsistent(m: map<string, Tally>, names: seq<string>) {
    forall key :: key in m ==> TallyConsistent(m[key], names)
  }

  /** `totals[key]["desc"] = desc; totals[key]["total"] += q;
      totals[key]["panels"][p] += q` on a `defaultdict`. */
  function Bump(m: map<string, Tally>, key: string, desc: string, p: string, q: int): (r: map<string, Tally>)
    ensures r.Keys == m.Keys + {key}
    ensures forall k :: k in m && k != key ==> r[k] == m[k]
    ensures r[key].desc == desc
    ensures r[key].total == (if key in m then m[key].total else 0) + q
  {
    var t := if key in m then m[key] else Tally("", 0, map[]);
    m[key := Tally(desc, t.total + q, t.panels[p := Get(t.panels, p) + q])]
  }

  /** The count a total keeps for one panel. */
  function PanelCount(m: map<string, Tally>, key: string, p: string): int {
    if key in m then Get(m[key].panels, p) else 0
  }

  /** A bump adds to exactly one panel's count of exactly one key. */
  lemma BumpCount(m: map<string, Tally>, key: string, desc: string, p: string, q: int, k: string, r: string)
    ensures PanelCount(Bump(m, key, desc, p, q), k, r) == PanelCount(m, k, r) + (if k == key && r == p then q else 0)
  {
  }

  /** A bump for a listed panel keeps every total the sum of its per-panel
      counts. */
  lemma BumpConsistent(m: map<string, Tally>, key: string, desc: string, p: string, q: int, names: seq<string>)
    requires MapConsistent(m, names) && p in names && Distinct(names)
    ensures MapConsistent(Bump(m, key, desc, p, q), names)
  {
    var t := if key in m then m[key] else Tally("", 0, map[]);
    SumOverEmpty(names);
    assert TallyConsistent(t, names);
    SumOverBump(names, t.panels, p, q);
  }

  /** Listing a new panel, which has no counts yet, keeps the totals consistent. */
  lemma AppendConsistent(m: map<string, Tally>, names: seq<string>, p: string)
    requires MapConsistent(m, names) && p !in names
    ensures MapConsistent(m, names + [p])
  {
    forall key | key in m ensures TallyConsistent(m[key], names + [p]) {
      SumOverAppend(names, m[key].panels, p);
    }
  }

  // ---------------------------------------------------------------- aggregation

  /** The three project-wide totals, the panels counted so far and the
      unmatched-busbar counter. */
  datatype Totals = Totals(
    parts: map<string, Tally>,
    categories: map<string, map<string, Tally>>,
    busbars: map<string, Tally>,
    relevant: seq<string>,
    noMatch: nat)

  const NoTotals := Totals(map[], map[], map[], [], 0)

  predicate Consistent(t: Totals) {
    && Distinct(t.relevant)
    && MapConsistent(t.parts, t.relevant)
    && (forall c :: c in t.categories ==> MapConsistent(t.categories[c], t.relevant))
    && MapConsistent(t.busbars, t.relevant)
  }

  /** A saved section: its item, if any, counts once under its model and once
      under its model in the bucket of the section's name. */
  function AddSection(t: Totals, p: string, s: SectionRecord): (r: Totals)
    ensures r.relevant == t.relevant && r.busbars == t.busbars && r.noMatch == t.noMatch
  {
    match s.item
    case None => t
    case Some(it) =>
      var bucket := if s.name in t.categories then t.categories[s.name] else map[];
      t.(parts := Bump(t.parts, it.model, it.desc, p, 1),
         categories := t.categories[s.name := Bump(bucket, it.model, it.desc, p, 1)])
  }

  function AddSections(t: Totals, p: string, ss: seq<SectionRecord>): (r: Totals)
    ensures r.relevant == t.relevant && r.busbars == t.busbars && r.noMatch == t.noMatch
    decreases |ss|
  {
    if ss == [] then t else AddSection(AddSections(t, p, ss[..|ss| - 1]), p, ss[|ss| - 1])
  }

  function AddCompartments(t: Totals, p: string, cs: seq<CompartmentRecord>): (r: Totals)
    ensures r.relevant == t.relevant && r.busbars == t.busbars && r.noMatch == t.noMatch
    decreases |cs|
  {
    if cs == [] then t else AddSections(AddCompartments(t, p, cs[..|cs| - 1]), p, cs[|cs| - 1].sections)
  }

  function AddCubicles(t: Totals, p: string, cubs: seq<CubicleRecord>): (r: Totals)
    ensures r.relevant == t.relevant && r.busbars == t.busbars && r.noMatch == t.noMatch
    decreases |cubs|
  {
    if cubs == [] then t else AddCompartments(AddCubicles(t, p, cubs[..|cubs| - 1]), p, cubs[|cubs| - 1].compartments)
  }

  function AddBusbar(t: Totals, p: string, table: seq<SizingRow>, b: BusbarData): (r: Totals)
    ensures r.relevant == t.relevant && r.parts == t.parts && r.categories == t.categories
  {
    var (c, counter) := Contribute(b, table, t.noMatch);
    match c
    case None => t
    case Some(x) => t.(busbars := Bump(t.busbars, x.key, x.desc, p, x.qty), noMatch := counter)
  }

  function AddBusbars(t: Totals, p: string, table: seq<SizingRow>, bs: seq<BusbarData>): (r: Totals)
    ensures r.relevant == t.relevant && r.parts == t.parts && r.categories == t.categories
    decreases |bs|
  {
    if bs == [] then t else AddBusbar(AddBusbars(t, p, table, bs[..|bs| - 1]), p, table, bs[|bs| - 1])
  }

  /** One relevant panel: it is listed, then its items and busbars are counted. */
  function AddPanel(t: Totals, p: string, rec: PanelRecord, table: seq<SizingRow>): (r: Totals)
    ensures r.relevant == t.relevant + [p]
  {
    AddBusbars(AddCubicles(t.(relevant := t.relevant + [p]), p, rec.cubicles), p, table, rec.busbars)
  }

  /** The names, in listing order, of the stored panels of the group. */
  function Relevant(store: map<string, PanelRecord>, order: seq<string>, group: ProjectInfo): (r: seq<string>)
    ensures forall n :: n in r <==> n in order && n in store && store[n].info == group
    decreases |order|
  {
    if order == [] then []
    else
      var n := |order| - 1;
      var prev := Relevant(store, order[..n], group);
      assert order == order[..n] + [order[n]];
      if order[n] in store && store[order[n]].info == group then prev + [order[n]] else prev
  }

  /** The totals loop of `generate_bom`, over the store in the order `order`
      lists its panels. */
  function Aggregate(store: map<string, PanelRecord>, order: seq<string>, group: ProjectInfo, table: seq<SizingRow>): (r: Totals)
    ensures r.relevant == Relevant(store, order, group)
    decreases |order|
  {
    if order == [] then NoTotals
    else
      var n := |order| - 1;
      var prev := Aggregate(store, order[..n], group, table);
      var name := order[n];
      if name in store && store[name].info == group then AddPanel(prev, name, store[name], table) else prev
  }

  /** The totals loop of `generate_bom`: for each listed panel of the group,
      record it, count every item of every section of every compartment of
      every cubicle, then add every busbar's contribution. */
  method AggregateTotals(store: map<string, PanelRecord>, order: seq<string>, group: ProjectInfo, table: seq<SizingRow>)
    returns (t: Totals)
    ensures t == Aggregate(store, order, group, table)
  {
    t := NoTotals;
    for i := 0 to |order|
      invariant t == Aggregate(store, order[..i], group, table)
    {
      assert order[..i + 1][..i] == order[..i];
      var name := order[i];
      if name in store && store[name].info == group {
        var rec := store[name];
        t := t.(relevant := t.relevant + [name]);
        ghost var start := t;
        var cubs := rec.cubicles;
        for a := 0 to |cubs|
          invariant t == AddCubicles(start, name, cubs[..a])
        {
          assert cubs[..a + 1][..a] == cubs[..a];
          ghost var beforeCubicle := t;
          var comps := cubs[a].compartments;
          for k := 0 to |comps|
            invariant t == AddCompartments(beforeCubicle, name, comps[..k])
          {
            assert comps[..k + 1][..k] == comps[..k];
            ghost var beforeCompartment := t;
            var secs := comps[k].sections;
            for j := 0 to |secs|
              invariant t == AddSections(beforeCompartment, name, secs[..j])
            {
              assert secs[..j + 1][..j] == secs[..j];
              var sec := secs[j];
              if sec.item.Some? {
                var it := sec.item.value;
                var bucket := if sec.name in t.categories then t.categories[sec.name] else map[];
                t := t.(parts := Bump(t.parts, it.model, it.desc, name, 1),
                        categories := t.categories[sec.name := Bump(bucket, it.model, it.desc, name, 1)]);
              }
            }
            assert secs[..|secs|] == secs;
          }
          assert comps[..|comps|] == comps;
        }
        assert cubs[..|cubs|] == cubs;
        ghost var beforeBusbars := t;
        var bs := rec.busbars;
        for b := 0 to |bs|
          invariant t == AddBusbars(beforeBusbars, name, table, bs[..b])
        {
          assert bs[..b + 1][..b] == bs[..b];
          var (c, counter) := Contribute(bs[b], table, t.noMatch);
          if c.Some? {
            t := t.(busbars := Bump(t.busbars, c.value.key, c.value.desc, name, c.value.qty), noMatch := counter);
          }
        }
        assert bs[..|bs|] == bs;
      }
    }
    assert order[..|order|] == order;
  }

  // ---------------------------------------------------------------- consistency

  lemma AddSectionConsistent(t: Totals, p: string, s: SectionRecord)
    requires Consistent(t) && p in t.relevant
    ensures Consistent(AddSection(t, p, s))
  {
    if s.item.Some? {
      var it := s.item.value;
      var bucket := if s.name in t.categories then t.categories[s.name] else map[];
      BumpConsistent(t.parts, it.model, it.desc, p, 1, t.relevant);
      BumpConsistent(bucket, it.model, it.desc, p, 1, t.relevant);
    }
  }

  lemma {:induction false} AddSectionsConsistent(t: Totals, p: string, ss: seq<SectionRecord>)
    requires Consistent(t) && p in t.relevant
    ensures Consistent(AddSections(t, p, ss))
    decreases |ss|
  {
    if ss != [] {
      AddSectionsConsistent(t, p, ss[..|ss| - 1]);
      AddSectionConsistent(AddSections(t, p, ss[..|ss| - 1]), p, ss[|ss| - 1]);
    }
  }

  lemma {:induction false} AddCompartmentsConsistent(t: Totals, p: string, cs: seq<CompartmentRecord>)
    requires Consistent(t) && p in t.relevant
    ensures Consistent(AddCompartments(t, p, cs))
    decreases |cs|
  {
    if cs != [] {
      AddCompartmentsConsistent(t, p, cs[..|cs| - 1]);
      AddSectionsConsistent(AddCompartments(t, p, cs[..|cs| - 1]), p, cs[|cs| - 1].sections);
    }
  }

  lemma {:induction false} AddCubiclesConsistent(t: Totals, p: string, cubs: seq<CubicleRecord>)
    requires Consistent(t) && p in t.relevant
    ensures Consistent(AddCubicles(t, p, cubs))
    decreases |cubs|
  {
    if cubs != [] {
      AddCubiclesConsistent(t, p, cubs[..|cubs| - 1]);
      AddCompartmentsConsistent(AddCubicles(t, p, cubs[..|cubs| - 1]), p, cubs[|cubs| - 1].compartments);
    }
  }

  lemma {:induction false} AddBusbarsConsistent(t: Totals, p: string, table: seq<SizingRow>, bs: seq<BusbarData>)
    requires Consistent(t) && p in t.relevant
    ensures Consistent(AddBusbars(t, p, table, bs))
    decreases |bs|
  {
    if bs != [] {
      var prev := AddBusbars(t, p, table, bs[..|bs| - 1]);
      AddBusbarsConsistent(t, p, table, bs[..|bs| - 1]);
      var (c, counter) := Contribute(bs[|bs| - 1], table, prev.noMatch);
      if c.Some? {
        BumpConsistent(prev.busbars, c.value.key, c.value.desc, p, c.value.qty, prev.relevant);
      }
    }
  }

  lemma AddPanelConsistent(t: Totals, p: string, rec: PanelRecord, table: seq<SizingRow>)
    requires Consistent(t) && p !in t.relevant
    ensures Consistent(AddPanel(t, p, rec, table))
  {
    var t1 := t.(relevant := t.relevant + [p]);
    AppendConsistent(t.parts, t.relevant, p);
    AppendConsistent(t.busbars, t.relevant, p);
    forall c | c in t.categories ensures MapConsistent(t.categories[c], t1.relevant) {
      AppendConsistent(t.categories[c], t.relevant, p);
    }
    assert Consistent(t1);
    AddCubiclesConsistent(t1, p, rec.cubicles);
    AddBusbarsConsistent(AddCubicles(t1, p, rec.cubicles), p, table, rec.busbars);
  }

  /** Over any listing of the store that names each panel once, every part
      model, every model in every category bucket and every busbar key ends up
      with a total equal to the sum of its per-panel counts, and only panels of
      the group have counts. */
  lemma {:induction false} AggregateConsistent(store: map<string, PanelRecord>, order: seq<string>, group: ProjectInfo, table: seq<SizingRow>)
    requires Distinct(order)
    ensures Consistent(Aggregate(store, order, group, table))
    decreases |order|
  {
    if order != [] {
      var n := |order| - 1;
      assert Distinct(order[..n]);
      AggregateConsistent(store, order[..n], group, table);
      var prev := Aggregate(store, order[..n], group, table);
      if order[n] in store && store[order[n]].info == group {
        assert order[n] !in order[..n];
        AddPanelConsistent(prev, order[n], store[order[n]], table);
      }
    }
  }

  // ---------------------------------------------------------------- per-panel counts

  /** Whether a saved section holds a part of model `model`. */
  predicate Holds(s: SectionRecord, model: string) {
    s.item.Some? && s.item.value.model == model
  }

  function CountInSections(ss: seq<SectionRecord>, model: string): nat
    decreases |ss|
  {
    if ss == [] then 0
    else CountInSections(ss[..|ss| - 1], model) + (if Holds(ss[|ss| - 1], model) then 1 else 0)
  }

  function CountInCompartments(cs: seq<CompartmentRecord>, model: string): nat
    decreases |cs|
  {
    if cs == [] then 0
    else CountInCompartments(cs[..|cs| - 1], model) + CountInSections(cs[|cs| - 1].sections, model)
  }

  function CountInCubicles(cubs: seq<CubicleRecord>, model: string): nat
    decreases |cubs|
  {
    if cubs == [] then 0
    else CountInCubicles(cubs[..|cubs| - 1], model) + CountInCompartments(cubs[|cubs| - 1].compartments, model)
  }

  /** How many sections of a saved panel hold model `model`. */
  function CountModel(rec: PanelRecord, model: string): nat {
    CountInCubicles(rec.cubicles, model)
  }

  lemma {:induction false} AddSectionsCount(t: Totals, p: string, ss: seq<SectionRecord>, model: string, q: string)
    ensures PanelCount(AddSections(t, p, ss).parts, model, q) ==
            PanelCount(t.parts, model, q) + (if q == p then CountInSections(ss, model) else 0)
    decreases |ss|
  {
    if ss != [] {
      var prev := AddSections(t, p, ss[..|ss| - 1]);
      AddSectionsCount(t, p, ss[..|ss| - 1], model, q);
      var s := ss[|ss| - 1];
      if s.item.Some? {
        BumpCount(prev.parts, s.item.value.model, s.item.value.desc, p, 1, model, q);
      }
    }
  }

  lemma {:induction false} AddCompartmentsCount(t: Totals, p: string, cs: seq<CompartmentRecord>, model: string, q: string)
    ensures PanelCount(AddCompartments(t, p, cs).parts, model, q) ==
            PanelCount(t.parts, model, q) + (if q == p then CountInCompartments(cs, model) else 0)
    decreases |cs|
  {
    if cs != [] {
      AddCompartmentsCount(t, p, cs[..|cs| - 1], model, q);
      AddSectionsCount(AddCompartments(t, p, cs[..|cs| - 1]), p, cs[|cs| - 1].sections, model, q);
    }
  }

  lemma {:induction false} AddCubiclesCount(t: Totals, p: string, cubs: seq<CubicleRecord>, model: string, q: string)
    ensures PanelCount(AddCubicles(t, p, cubs).parts, model, q) ==
            PanelCount(t.parts, model, q) + (if q == p then CountInCubicles(cubs, model) else 0)
    decreases |cubs|
  {
    if cubs != [] {
      AddCubiclesCount(t, p, cubs[..|cubs| - 1], model, q);
      AddCompartmentsCount(AddCubicles(t, p, cubs[..|cubs| - 1]), p, cubs[|cubs| - 1].compartments, model, q);
    }
  }

  /** For every panel of the group, the per-panel count of each part model is
      the number of that panel's sections holding it; panels outside the group
      count nothing. */
  lemma {:induction false} AggregateCounts(store: map<string, PanelRecord>, order: seq<string>, group: ProjectInfo,
                                          table: seq<SizingRow>, model: string, q: string)
    requires Distinct(order)
    ensures var t := Aggregate(store, order, group, table);
            PanelCount(t.parts, model, q) ==
              if q in t.relevant then CountModel(store[q], model) else 0
    decreases |order|
  {
    if order != [] {
      var n := |order| - 1;
      assert Distinct(order[..n]);
      var prev := Aggregate(store, order[..n], group, table);
      AggregateCounts(store, order[..n], group, table, model, q);
      var name := order[n];
      if name in store && store[name].info == group {
        assert name !in order[..n];
        var t1 := prev.(relevant := prev.relevant + [name]);
        AddCubiclesCount(t1, name, store[name].cubicles, model, q);
      }
    }
  }

  // ---------------------------------------------------------------- total rows

  /** The per-panel columns of a row of the "Total BOM" sheet, in the order
      the panels were listed; a panel without a count shows 0. */
  function PanelColumns(t: Tally, names: seq<string>): (cols: seq<int>)
    ensures |cols| == |names|
    ensures forall i :: 0 <= i < |names| ==> cols[i] == Get(t.panels, names[i])
  {
    seq(|names|, i requires 0 <= i < |names| => Get(t.panels, names[i]))
  }

  function SumSeq(xs: seq<int>): int
    decreases |xs|
  {
    if xs == [] then 0 else SumSeq(xs[..|xs| - 1]) + xs[|xs| - 1]
  }

  lemma {:induction false} ColumnsSum(t: Tally, names: seq<string>)
    ensures SumSeq(PanelColumns(t, names)) == SumOver(names, t.panels)
    decreases |names|
  {
    if names != [] {
      var n := |names| - 1;
      assert PanelColumns(t, names)[..n] == PanelColumns(t, names[..n]);
      ColumnsSum(t, names[..n]);
    }
  }

  /** On a consistent total, the "Total Qty" column of its row is the sum of
      the row's panel columns. */
  lemma TotalIsRowSum(t: Tally, names: seq<string>)
    requires TallyConsistent(t, names)
    ensures SumSeq(PanelColumns(t, names)) == t.total
  {
    ColumnsSum(t, names);
  }

  // ---------------------------------------------------------------- export grid

  /** The grid's header row. */
  const GridHeader: seq<string> := ["Cubicle (X,Y)"] + SECTION_NAMES

  /** The cell of a compartment's row for section name `name`: the model of
      the first section with that name that holds an item, or "". */
  function Cell(sections: seq<Section>, name: string): (r: string)
    ensures r == [] || exists j :: 0 <= j < |sections| && sections[j].name == name &&
                                   sections[j].item.Some? && sections[j].item.value.model == r
    ensures (forall j :: 0 <= j < |sections| && sections[j].name == name ==> sections[j].item.None?) ==> r == []
    decreases |sections|
  {
    if sections == [] then []
    else if sections[0].name == name && sections[0].item.Some? then sections[0].item.value.model
    else
      var r := Cell(sections[1..], name);
      assert r != [] ==> exists j :: 1 <= j < |sections| && sections[j].name == name &&
                                     sections[j].item.Some? && sections[j].item.value.model == r by {
        if r != [] {
          var j :| 0 <= j < |sections[1..]| && sections[1..][j].name == name &&
                   sections[1..][j].item.Some? && sections[1..][j].item.value.model == r;
          assert sections[j + 1] == sections[1..][j];
        }
      }
      r
  }

  lemma SectionNamesDistinct()
    ensures forall i, j :: 0 <= i < j < |SECTION_NAMES| ==> SECTION_NAMES[i] != SECTION_NAMES[j]
  {
  }

  lemma {:induction false} CellOfPosition(sections: seq<Section>, name: string, j: nat)
    requires j < |sections| && sections[j].name == name
    requires forall i :: 0 <= i < |sections| && i != j ==> sections[i].name != name
    ensures Cell(sections, name) == if sections[j].item.Some? then sections[j].item.value.model else []
    decreases j
  {
    if j > 0 {
      CellOfPosition(sections[1..], name, j - 1);
    }
  }

  /** In a compartment with its six named sections, the cell under each
      section name is the model held by that section, or "" when it is empty. */
  lemma CellOfNamedSection(comp: Compartment, j: nat)
    requires SectionsNamed(comp) && j < |SECTION_NAMES|
    ensures Cell(comp.sections, SECTION_NAMES[j]) ==
            if comp.sections[j].item.Some? then comp.sections[j].item.value.model else []
  {
    SectionNamesDistinct();
    CellOfPosition(comp.sections, SECTION_NAMES[j], j);
  }

  /** The row of compartment `k` of cubicle `c`, both counted from 1. */
  function GridRow(c: nat, k: nat, comp: Compartment): (row: seq<string>)
    ensures |row| == 1 + |SECTION_NAMES|
    ensures row[0] == NatToString(c) + "," + NatToString(k)
    ensures forall j :: 0 <= j < |SECTION_NAMES| ==> row[j + 1] == Cell(comp.sections, SECTION_NAMES[j])
  {
    [NatToString(c) + "," + NatToString(k)] +
      seq(|SECTION_NAMES|, j requires 0 <= j < |SECTION_NAMES| => Cell(comp.sections, SECTION_NAMES[j]))
  }

  /** The rows of cubicle number `c` (counted from 1), one per compartment. */
  function CubicleRows(c: nat, comps: seq<Compartment>): (rows: seq<seq<string>>)
    ensures |rows| == |comps|
    ensures forall k :: 0 <= k < |comps| ==> rows[k] == GridRow(c, k + 1, comps[k])
  {
    seq(|comps|, k requires 0 <= k < |comps| => GridRow(c, k + 1, comps[k]))
  }

  /** The grid below the header: the rows of every cubicle, in order. */
  function GridRows(cubicles: seq<Cubicle>): seq<seq<string>>
    decreases |cubicles|
  {
    if cubicles == [] then []
    else
      var n := |cubicles| - 1;
      GridRows(cubicles[..n]) + CubicleRows(n + 1, cubicles[n].compartments)
  }

  function CompartmentTotal(cubicles: seq<Cubicle>): nat
    decreases |cubicles|
  {
    if cubicles == [] then 0
    else CompartmentTotal(cubicles[..|cubicles| - 1]) + |cubicles[|cubicles| - 1].compartments|
  }

  /** One row per compartment of the panel. */
  lemma {:induction false} GridRowsCount(cubicles: seq<Cubicle>)
    ensures |GridRows(cubicles)| == CompartmentTotal(cubicles)
    decreases |cubicles|
  {
    if cubicles != [] {
      GridRowsCount(cubicles[..|cubicles| - 1]);
    }
  }

  /** One grid row: the label "c,k", then the model in each named section. */
  method ExportRow(c: nat, k: nat, comp: Compartment) returns (row: seq<string>)
    ensures row == GridRow(c, k, comp)
  {
    row := [NatToString(c) + "," + NatToString(k)];
    for j := 0 to |SECTION_NAMES|
      invariant row == GridRow(c, k, comp)[..j + 1]
    {
      ghost var full := GridRow(c, k, comp);
      assert full[..j + 2] == full[..j + 1] + [full[j + 1]];
      row := row + [Cell(comp.sections, SECTION_NAMES[j])];
    }
    assert GridRow(c, k, comp)[..|SECTION_NAMES| + 1] == GridRow(c, k, comp);
  }

  /** The rows of cubicle number `c`, one per compartment counted from 1. */
  method ExportCubicle(c: nat, comps: seq<Compartment>) returns (rows: seq<seq<string>>)
    ensures rows == CubicleRows(c, comps)
  {
    rows := [];
    for ki := 0 to |comps|
      invariant rows == CubicleRows(c, comps[..ki])
    {
      var row := ExportRow(c, ki + 1, comps[ki]);
      assert CubicleRows(c, comps[..ki + 1]) == CubicleRows(c, comps[..ki]) + [row];
      rows := rows + [row];
    }
    assert comps[..|comps|] == comps;
  }

  /** The panel sheet's grid: the header, then for each cubicle (counted from
      1) and each of its compartments (counted from 1) the label "c,k" and the
      model in each named section. */
  method ExportGrid(cubicles: seq<Cubicle>) returns (data: seq<seq<string>>)
    ensures data == [GridHeader] + GridRows(cubicles)
  {
    data := [GridHeader];
    for ci := 0 to |cubicles|
      invariant data == [GridHeader] + GridRows(cubicles[..ci])
    {
      assert cubicles[..ci + 1][..ci] == cubicles[..ci];
      var rows := ExportCubicle(ci + 1, cubicles[ci].compartments);
      data := data + rows;
    }
    assert cubicles[..|cubicles|] == cubicles;
  }

  /** Python's `tuple(map(int, coords))` of the export. */
  function TruncRect(r: Rect): (int, int, int, int) {
    (Trunc(r.x1), Trunc(r.y1), Trunc(r.x2), Trunc(r.y2))
  }

  /** The length column of a busbar's export row, computed from the truncated
      coordinates. */
  function ExportLength(b: BusbarData): (r: int)
    ensures Length(b) - 2.0 < r as real < Length(b) + 2.0
  {
    var (x1, y1, x2, y2) := TruncRect(b.coords);
    if b.orientation == Horizontal then x2 - x1 else y2 - y1
  }

  /** On whole-number coordinates the export shows the length the totals use. */
  lemma ExportLengthOfWhole(b: BusbarData, x1: int, y1: int, x2: int, y2: int)
    requires b.coords == Rect(x1 as real, y1 as real, x2 as real, y2 as real)
    ensures ExportLength(b) as real == Length(b)
  {
    assert Trunc(x1 as real) == x1 && Trunc(x2 as real) == x2;
    assert Trunc(y1 as real) == y1 && Trunc(y2 as real) == y2;
  }
}
