/** Geometry of the panel drawing: reading a cubicle size, where a new cubicle
    goes, how a cubicle is cut into compartments and sections, and how a
    component label is cut into vertical columns of text. */
module Layout {
  import opened Wrappers
  import opened Text
  import opened PanelTypes

  // ---------------------------------------------------------------- cubicle sizes

  /** `t` has its one 'x' at `i`, with the integer `w` before it and `h` after it. */
  predicate CutAtX(t: string, i: int, w: int, h: int) {
    0 <= i < |t| && t[i] == 'x' && 'x' !in t[..i] && 'x' !in t[i + 1..]
    && ParseInt(t[..i]) == Some(w) && ParseInt(t[i + 1..]) == Some(h)
  }

  /** `width, height = map(int, size.replace("mm", "").split("x"))`: `None` where
      Python raises (not exactly two parts, or a part that is not an integer). */
  function ParseCubicleSize(size: string): (r: Option<(int, int)>)
    ensures r.Some? ==> exists i :: CutAtX(RemoveAll(size, "mm"), i, r.value.0, r.value.1)
  {
    var t := RemoveAll(size, "mm");
    var parts := Split(t, 'x');
    if |parts| != 2 then None
    else
      match (ParseInt(parts[0]), ParseInt(parts[1]))
      case (Some(w), Some(h)) =>
        var i := |parts[0]|;
        assert Join(parts[1..], 'x') == parts[1];
        assert t == parts[0] + ['x'] + parts[1];
        assert t[..i] == parts[0] && t[i + 1..] == parts[1];
        assert CutAtX(t, i, w, h);
        Some((w, h))
      case _ => None
  }

  /** How the size list writes a width and a height. */
  function FormatCubicleSize(w: nat, h: nat): string {
    NatToString(w) + "mm x " + NatToString(h) + "mm"
  }

  lemma DigitsFreeOf(d: string, c: char)
    requires AllDigits(d) && !IsDigit(c)
    ensures c !in d
  {
  }

  /** Removing "mm" from a formatted size leaves "<w> x <h>". */
  lemma RemoveMmOfFormat(dw: string, dh: string)
    requires AllDigits(dw) && AllDigits(dh)
    ensures RemoveAll(dw + "mm x " + dh + "mm", "mm") == dw + " x " + dh
  {
    DigitsFreeOf(dw, 'm');
    DigitsFreeOf(dh, 'm');
    var tail := " x " + dh;
    assert 'm' !in tail by {
      assert forall i :: 0 <= i < |tail| ==> tail[i] == ' ' || tail[i] == 'x' || IsDigit(tail[i]);
    }
    assert dw + "mm x " + dh + "mm" == dw + ("mm" + (tail + "mm"));
    RemoveAllPrefix(dw, "mm" + (tail + "mm"), "mm");
    RemoveAllLeading(tail + "mm", "mm");
    RemoveAllPrefix(tail, "mm", "mm");
    assert "mm" == "mm" + [];
    RemoveAllLeading([], "mm");
    assert tail + [] == tail;
  }

  /** Splitting "<w> x <h>" at the 'x' gives "<w> " and " <h>". */
  lemma SplitSize(dw: string, dh: string)
    requires AllDigits(dw) && AllDigits(dh)
    ensures Split(dw + " x " + dh, 'x') == [dw + " ", " " + dh]
  {
    DigitsFreeOf(dw, 'x');
    DigitsFreeOf(dh, 'x');
    var a, b := dw + " ", " " + dh;
    assert 'x' !in a && 'x' !in b by {
      assert forall i :: 0 <= i < |a| ==> a[i] == ' ' || IsDigit(a[i]);
      assert forall i :: 0 <= i < |b| ==> b[i] == ' ' || IsDigit(b[i]);
    }
    assert dw + " x " + dh == a + ['x'] + b;
    SplitAfterPrefix(a, 'x', b);
    SplitWithoutSep(b, 'x');
  }

  /** Reading a size reverses writing it. */
  lemma ParseFormatCubicleSize(w: nat, h: nat)
    ensures ParseCubicleSize(FormatCubicleSize(w, h)) == Some((w, h))
  {
    var dw, dh := NatToString(w), NatToString(h);
    var parts := Split(RemoveAll(FormatCubicleSize(w, h), "mm"), 'x');
    assert parts == [dw + " ", " " + dh] by {
      RemoveMmOfFormat(dw, dh);
      SplitSize(dw, dh);
    }
    assert ParseInt(parts[0]) == Some(w) by {
      ParseIntOfNat([], w, " ");
      assert [] + dw + " " == dw + " ";
    }
    assert ParseInt(parts[1]) == Some(h) by {
      ParseIntOfNat(" ", h, []);
      assert " " + dh + [] == " " + dh;
    }
  }

  /** The widths and heights the size dialog offers, in its order. */
  const CUBICLE_DIMS: seq<(nat, nat)> := [
    (600, 1800), (800, 1800), (1000, 1800),
    (600, 2000), (800, 2000), (1000, 2000),
    (600, 400), (800, 400), (1000, 400),
    (600, 600), (800, 600), (1000, 600)
  ]

  lemma PrintedDims()
    ensures NatToString(600) == "600" && NatToString(800) == "800" && NatToString(1000) == "1000"
    ensures NatToString(1800) == "1800" && NatToString(2000) == "2000"
    ensures NatToString(400) == "400"
  {
    assert NatToString(6) == "6" && NatToString(8) == "8" && NatToString(1) == "1";
    assert NatToString(2) == "2" && NatToString(4) == "4";
    assert NatToString(10) == "10" && NatToString(18) == "18" && NatToString(20) == "20";
    assert NatToString(60) == "60" && NatToString(80) == "80" && NatToString(100) == "100";
    assert NatToString(180) == "180" && NatToString(200) == "200" && NatToString(40) == "40";
  }

  lemma SizeEntry(w: nat, h: nat, ws: string, hs: string, entry: string)
    requires NatToString(w) == ws && NatToString(h) == hs && entry == ws + "mm x " + hs + "mm"
    ensures entry == FormatCubicleSize(w, h)
  {
  }

  lemma SizesOfHeight1800()
    ensures CUBICLE_SIZES[0] == FormatCubicleSize(600, 1800)
    ensures CUBICLE_SIZES[1] == FormatCubicleSize(800, 1800)
    ensures CUBICLE_SIZES[2] == FormatCubicleSize(1000, 1800)
  {
    PrintedDims();
    SizeEntry(600, 1800, "600", "1800", "600mm x 1800mm");
    SizeEntry(800, 1800, "800", "1800", "800mm x 1800mm");
    SizeEntry(1000, 1800, "1000", "1800", "1000mm x 1800mm");
  }

  lemma SizesOfHeight2000()
    ensures CUBICLE_SIZES[3] == FormatCubicleSize(600, 2000)
    ensures CUBICLE_SIZES[4] == FormatCubicleSize(800, 2000)
    ensures CUBICLE_SIZES[5] == FormatCubicleSize(1000, 2000)
  {
    PrintedDims();
    SizeEntry(600, 2000, "600", "2000", "600mm x 2000mm");
    SizeEntry(800, 2000, "800", "2000", "800mm x 2000mm");
    SizeEntry(1000, 2000, "1000", "2000", "1000mm x 2000mm");
  }

  lemma SizesOfHeight400()
    ensures CUBICLE_SIZES[6] == FormatCubicleSize(600, 400)
    ensures CUBICLE_SIZES[7] == FormatCubicleSize(800, 400)
    ensures CUBICLE_SIZES[8] == FormatCubicleSize(1000, 400)
  {
    PrintedDims();
    SizeEntry(600, 400, "600", "400", "600mm x 400mm");
    SizeEntry(800, 400, "800", "400", "800mm x 400mm");
    SizeEntry(1000, 400, "1000", "400", "1000mm x 400mm");
  }

  lemma SizesOfHeight600()
    ensures CUBICLE_SIZES[9] == FormatCubicleSize(600, 600)
    ensures CUBICLE_SIZES[10] == FormatCubicleSize(800, 600)
    ensures CUBICLE_SIZES[11] == FormatCubicleSize(1000, 600)
  {
    PrintedDims();
    SizeEntry(600, 600, "600", "600", "600mm x 600mm");
    SizeEntry(800, 600, "800", "600", "800mm x 600mm");
    SizeEntry(1000, 600, "1000", "600", "1000mm x 600mm");
  }

  /** Every entry of the size dialog is the printed form of its width and height. */
  lemma CubicleSizesPrinted()
    ensures |CUBICLE_SIZES| == |CUBICLE_DIMS|
    ensures forall i :: 0 <= i < |CUBICLE_SIZES| ==>
      CUBICLE_SIZES[i] == FormatCubicleSize(CUBICLE_DIMS[i].0, CUBICLE_DIMS[i].1)
  {
    SizesOfHeight1800();
    SizesOfHeight2000();
    SizesOfHeight400();
    SizesOfHeight600();
  }

  /** So every entry reads back as exactly that width and height. */
  lemma CubicleSizesParse()
    ensures forall i :: 0 <= i < |CUBICLE_SIZES| ==>
      i < |CUBICLE_DIMS| && ParseCubicleSize(CUBICLE_SIZES[i]) == Some(CUBICLE_DIMS[i])
  {
    CubicleSizesPrinted();
    forall i | 0 <= i < |CUBICLE_SIZES|
      ensures ParseCubicleSize(CUBICLE_SIZES[i]) == Some(CUBICLE_DIMS[i])
    {
      ParseFormatCubicleSize(CUBICLE_DIMS[i].0, CUBICLE_DIMS[i].1);
    }
  }

  // ---------------------------------------------------------------- placement

  /** Where `add_cubicle` puts a new cubicle: (50, 50) for the first one, then
      right next to the last one, at the same height. */
  function CubicleOrigin(cubicles: seq<Cubicle>): (p: (real, real))
    ensures cubicles == [] ==> p == (50.0, 50.0)
    ensures cubicles != [] ==> p.1 == cubicles[|cubicles| - 1].rect.y1
    ensures cubicles != [] ==>
      p.0 == cubicles[|cubicles| - 1].rect.x1 + cubicles[|cubicles| - 1].width as real * SCALE
  {
    if cubicles == [] then (50.0, 50.0)
    else
      var last := cubicles[|cubicles| - 1];
      (last.rect.x1 + last.width as real * SCALE, last.rect.y1)
  }

  /** The cubicle `add_cubicle` creates for a `width` x `height` mm size. */
  function NewCubicle(cubicles: seq<Cubicle>, id: int, width: int, height: int): (c: Cubicle)
    ensures (c.rect.x1, c.rect.y1) == CubicleOrigin(cubicles)
    ensures c.rect.x2 - c.rect.x1 == width as real * SCALE
    ensures c.rect.y2 - c.rect.y1 == height as real * SCALE
    ensures c.id == id && c.width == width && c.height == height && c.compartments == []
  {
    var (x, y) := CubicleOrigin(cubicles);
    Cubicle(id, width, height, Rect(x, y, x + width as real * SCALE, y + height as real * SCALE), [])
  }

  /** Cubicles tile left to right without gaps: each one starts where the one
      before it ends, at the same height. */
  ghost predicate Tiled(cubicles: seq<Cubicle>) {
    forall i :: 0 < i < |cubicles| ==>
      cubicles[i].rect.x1 == cubicles[i - 1].rect.x1 + cubicles[i - 1].width as real * SCALE &&
      cubicles[i].rect.y1 == cubicles[i - 1].rect.y1
  }

  lemma AppendKeepsTiled(cubicles: seq<Cubicle>, id: int, width: int, height: int, c: Cubicle)
    requires Tiled(cubicles)
    requires c.rect == NewCubicle(cubicles, id, width, height).rect && c.width == width
    ensures Tiled(cubicles + [c])
    ensures cubicles == [] ==> c.rect.x1 == 50.0 && c.rect.y1 == 50.0
  {
    var cs := cubicles + [c];
    forall i | 0 < i < |cs|
      ensures cs[i].rect.x1 == cs[i - 1].rect.x1 + cs[i - 1].width as real * SCALE
      ensures cs[i].rect.y1 == cs[i - 1].rect.y1
    {
      if i < |cubicles| {
        assert cs[i] == cubicles[i] && cs[i - 1] == cubicles[i - 1];
      } else {
        assert cs[i - 1] == cubicles[|cubicles| - 1];
      }
    }
  }

  // ---------------------------------------------------------------- compartments

  /** Section `j` of a band spanning `y1`..`y2`: one sixth of the cubicle's width. */
  function SectionRect(r: Rect, j: nat, y1: real, y2: real): Rect {
    var w := (r.x2 - r.x1) / |SECTION_NAMES| as real;
    Rect(r.x1 + j as real * w, y1, r.x1 + j as real * w + w, y2)
  }

  /** Compartment number `row` of a cubicle drawn at `r`, bands `h` high, its
      six sections taking the canvas ids from `firstId` on. */
  function Band(r: Rect, row: nat, h: real, firstId: int): (c: Compartment)
    ensures |c.sections| == |SECTION_NAMES|
    ensures forall j :: 0 <= j < |SECTION_NAMES| ==>
      c.sections[j].name == SECTION_NAMES[j] && c.sections[j].id == firstId + j && c.sections[j].item == None
  {
    var y1 := r.y1 + row as real * h;
    Compartment(seq(|SECTION_NAMES|, j requires 0 <= j < |SECTION_NAMES| =>
      Section(SECTION_NAMES[j], firstId + j, SectionRect(r, j, y1, y1 + h), None)))
  }

  /** The `count` compartments `create_compartments` appends to a cubicle that
      already has `existing` of them. */
  function Bands(r: Rect, existing: nat, h: real, firstId: int, count: nat): (cs: seq<Compartment>)
    ensures |cs| == count
    ensures forall k :: 0 <= k < count ==> cs[k] == Band(r, existing + k, h, firstId + |SECTION_NAMES| * k)
  {
    seq(count, k requires 0 <= k < count => Band(r, existing + k, h, firstId + |SECTION_NAMES| * k))
  }

  /** Six sections laid out as `Band` lays them out are that band. */
  lemma BandOfSections(r: Rect, row: nat, h: real, firstId: int, sections: seq<Section>)
    requires |sections| == |SECTION_NAMES|
    requires forall j :: 0 <= j < |SECTION_NAMES| ==>
      sections[j] == Section(SECTION_NAMES[j], firstId + j, SectionRect(r, j, RowTop(r, row, h), RowTop(r, row, h) + h), None)
    ensures Compartment(sections) == Band(r, row, h, firstId)
  {
    var band := Band(r, row, h, firstId).sections;
    assert forall j :: 0 <= j < |SECTION_NAMES| ==> sections[j] == band[j];
  }

  function Top(c: Compartment): real requires c.sections != [] { c.sections[0].rect.y1 }
  function Bottom(c: Compartment): real requires c.sections != [] { c.sections[0].rect.y2 }

  /** The top edge of compartment `row` when bands are `h` high. */
  function RowTop(r: Rect, row: nat, h: real): real {
    r.y1 + row as real * h
  }

  lemma RowStep(r: Rect, row: nat, h: real)
    ensures RowTop(r, row + 1, h) == RowTop(r, row, h) + h
  {
    assert (row + 1) as real * h == row as real * h + h;
  }

  lemma LastRowBottom(r: Rect, num: nat)
    requires num >= 1
    ensures var h := (r.y2 - r.y1) / num as real; RowTop(r, num - 1, h) + h == r.y2
  {
    var h := (r.y2 - r.y1) / num as real;
    assert (num - 1) as real * h + h == num as real * h;
    assert num as real * h == r.y2 - r.y1;
  }

  lemma BandTopBottom(r: Rect, row: nat, h: real, firstId: int)
    ensures Top(Band(r, row, h, firstId)) == RowTop(r, row, h)
    ensures Bottom(Band(r, row, h, firstId)) == RowTop(r, row, h) + h
  {
  }

  /** Compartments `bs` stack inside `r`: the first starts at the top edge, the
      last ends at the bottom edge, each starts where the previous one ends,
      and all are `(r.y2 - r.y1) / |bs|` high. */
  predicate Stacked(r: Rect, bs: seq<Compartment>) {
    && |bs| >= 1
    && (forall k :: 0 <= k < |bs| ==> bs[k].sections != [])
    && var h := (r.y2 - r.y1) / |bs| as real;
    && Top(bs[0]) == r.y1
    && Bottom(bs[|bs| - 1]) == r.y2
    && (forall k :: 0 <= k < |bs| - 1 ==> Bottom(bs[k]) == Top(bs[k + 1]))
    && (forall k :: 0 <= k < |bs| ==> Bottom(bs[k]) - Top(bs[k]) == h)
  }

  /** A fresh cubicle cut into `num` compartments: the bands are `h / num` high
      and stacked from the cubicle's top to its bottom without gap or overlap. */
  lemma BandsStack(r: Rect, num: nat, firstId: int)
    requires num >= 1
    ensures Stacked(r, Bands(r, 0, (r.y2 - r.y1) / num as real, firstId, num))
  {
    var h := (r.y2 - r.y1) / num as real;
    var bs := Bands(r, 0, h, firstId, num);
    forall k | 0 <= k < num
      ensures Top(bs[k]) == RowTop(r, k, h) && Bottom(bs[k]) == RowTop(r, k, h) + h
    {
      BandTopBottom(r, k, h, firstId + |SECTION_NAMES| * k);
    }
    forall k | 0 <= k < num - 1 ensures Bottom(bs[k]) == Top(bs[k + 1]) {
      RowStep(r, k, h);
    }
    LastRowBottom(r, num);
  }

  /** In every band the six sections share the band's top and bottom and tile
      the cubicle's width from left to right in equal parts. */
  lemma BandSectionsTile(r: Rect, row: nat, h: real, firstId: int)
    ensures var c := Band(r, row, h, firstId);
            && (forall j :: 0 <= j < |SECTION_NAMES| ==>
                  c.sections[j].rect.y1 == Top(c) && c.sections[j].rect.y2 == Bottom(c))
            && c.sections[0].rect.x1 == r.x1
            && c.sections[|SECTION_NAMES| - 1].rect.x2 == r.x2
            && (forall j :: 0 <= j < |SECTION_NAMES| - 1 ==> c.sections[j].rect.x2 == c.sections[j + 1].rect.x1)
            && (forall j :: 0 <= j < |SECTION_NAMES| ==>
                  c.sections[j].rect.x2 - c.sections[j].rect.x1 == (r.x2 - r.x1) / 6.0)
  {
    var c := Band(r, row, h, firstId);
    var y1 := r.y1 + row as real * h;
    var w := (r.x2 - r.x1) / 6.0;
    forall j | 0 <= j < |SECTION_NAMES| ensures c.sections[j].rect == SectionRect(r, j, y1, y1 + h) {
    }
    forall j | 0 <= j < |SECTION_NAMES| - 1 ensures c.sections[j].rect.x2 == c.sections[j + 1].rect.x1 {
      assert (j + 1) as real * w == j as real * w + w;
    }
  }

  // ---------------------------------------------------------------- label columns

  /** The chunks glued back together. */
  function Concat(chunks: seq<string>): string {
    if chunks == [] then [] else Concat(chunks[..|chunks| - 1]) + chunks[|chunks| - 1]
  }

  lemma {:induction false} ConcatLength(chunks: seq<string>, n: nat)
    requires forall i :: 0 <= i < |chunks| ==> |chunks[i]| == n
    ensures |Concat(chunks)| == |chunks| * n
  {
    if chunks != [] {
      var m := |chunks| - 1;
      assert forall i :: 0 <= i < m ==> chunks[..m][i] == chunks[i];
      ConcatLength(chunks[..m], n);
      assert |chunks| * n == m * n + n;
    }
  }

  /** `_split_text_into_columns`: the label cut into consecutive chunks of
      `maxLines` characters (the last one possibly shorter), one per column. */
  method SplitTextIntoColumns(text: string, maxLines: nat) returns (chunks: seq<string>)
    requires maxLines >= 1
    ensures Concat(chunks) == text
    ensures forall i :: 0 <= i < |chunks| ==> 0 < |chunks[i]| <= maxLines
    ensures forall i :: 0 <= i < |chunks| - 1 ==> |chunks[i]| == maxLines
  {
    chunks := [];
    var i := 0;
    while i < |text|
      invariant 0 <= i <= |text|
      invariant Concat(chunks) == text[..i]
      invariant forall k :: 0 <= k < |chunks| ==> 0 < |chunks[k]| <= maxLines
      invariant i < |text| ==> forall k :: 0 <= k < |chunks| ==> |chunks[k]| == maxLines
      invariant forall k :: 0 <= k < |chunks| - 1 ==> |chunks[k]| == maxLines
    {
      var end := if i + maxLines <= |text| then i + maxLines else |text|;
      var chunk := text[i..end];
      assert Concat(chunks + [chunk]) == Concat(chunks) + chunk by {
        assert (chunks + [chunk])[..|chunks|] == chunks;
      }
      assert text[..i] + text[i..end] == text[..end];
      chunks := chunks + [chunk];
      i := end;
    }
    assert text[..i] == text;
  }

  /** So there are as many columns as `maxLines`-character chunks are needed:
      `ceil(len(text) / maxLines)`. */
  lemma ColumnCount(text: string, chunks: seq<string>, maxLines: nat)
    requires maxLines >= 1 && Concat(chunks) == text
    requires forall i :: 0 <= i < |chunks| ==> 0 < |chunks[i]| <= maxLines
    requires forall i :: 0 <= i < |chunks| - 1 ==> |chunks[i]| == maxLines
    ensures (|chunks| - 1) * maxLines < |text| <= |chunks| * maxLines
  {
    if chunks != [] {
      var n := |chunks| - 1;
      ConcatLength(chunks[..n], maxLines);
      assert Concat(chunks) == Concat(chunks[..n]) + chunks[n];
      assert |text| == n * maxLines + |chunks[n]|;
      assert |chunks| * maxLines == n * maxLines + maxLines;
    }
  }

  /** What `draw_vertical_text_in_section` draws of the columns when only
      `maxColsFit` of them fit across the section: whole leading columns, and
      whether any were dropped (shown as an ellipsis). */
  function VisibleColumns(columns: seq<string>, maxColsFit: nat): (r: (seq<string>, bool))
    requires maxColsFit >= 1
    ensures r.0 == columns[..if |columns| < maxColsFit then |columns| else maxColsFit]
    ensures r.1 <==> |r.0| < |columns|
  {
    if |columns| > maxColsFit then (columns[..maxColsFit], true) else (columns, false)
  }

  lemma {:induction false} ConcatPrefix(columns: seq<string>, k: nat)
    requires k <= |columns|
    ensures Concat(columns[..k]) <= Concat(columns)
    decreases |columns| - k
  {
    if k < |columns| {
      var n := |columns|;
      ConcatPrefix(columns[..n - 1], k);
      assert columns[..n - 1][..k] == columns[..k];
    } else {
      assert columns[..k] == columns;
    }
  }

  /** Truncation drops whole trailing columns: what is drawn is the label's first
      `k * maxLines` characters, `k` the number of columns that fit. */
  lemma VisibleTextIsPrefix(text: string, columns: seq<string>, maxLines: nat, k: nat)
    requires Concat(columns) == text
    requires forall i :: 0 <= i < |columns| - 1 ==> |columns[i]| == maxLines
    requires k < |columns|
    ensures k * maxLines <= |text| && Concat(columns[..k]) == text[..k * maxLines]
  {
    ConcatPrefix(columns, k);
    ConcatLength(columns[..k], maxLines);
  }
}
