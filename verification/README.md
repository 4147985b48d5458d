# Panel designer: a verified model of the editing core

`PanelDesigner` (`main.py`) is a Tkinter editor for electrical switchboard panels.
The user works on one panel at a time:

- places cubicles of catalogue sizes side by side on a canvas;
- cuts each cubicle into horizontal compartments of six fixed sections
  (Breaker, ELR/EFR, PFR, Power Analyzer/Energy Meter, Indicator Light, SPD);
- picks a breaker model for a section from a searchable catalogue;
- drops vertical, horizontal and terminal busbars, which can be dragged and
  stretched;
- undoes the last logged edit;
- saves the panel to a JSON file and loads it back;
- imports breaker types from a spreadsheet;
- generates a bill of materials: a per-panel grid plus project-wide totals per
  part, per section category and per busbar size.

This project models that document core in Dafny and proves what the editor
promises about it.

| file | module | what it holds |
|---|---|---|
| `wrappers.dfy` | `Wrappers` | `Option` and `Result` |
| `text.dfy` | `Text` | Python's `strip`, `split`, `lower`, `replace`, `int()` and `str()` on the strings the editor handles |
| `panel_types.dfy` | `PanelTypes` | the constants (`SCALE`, `SECTION_NAMES`, `CUBICLE_SIZES`), the in-memory document `Doc` (cubicles, busbars, undo stack, next canvas id) and the saved `PanelRecord` |
| `layout.dfy` | `Layout` | cubicle-size parsing, left-to-right tiling, compartment bands and section rectangles, label columns |
| `edit_spec.dfy` | `EditSpec` | every edit as a function on `Doc`; undo as the inverse of each logged edit; drag/resize as a pure step |
| `persistence.dfy` | `Persistence` | save and load as a pair; the load as written next to the corrected one; the project-group filters |
| `catalog.dfy` | `Catalog` | breaker import, the search filter, parsing a list label back into model and description |
| `bom.dfy` | `Bom` | nearest-fit sizing lookup, busbar quantities, the totals loop and its consistency, the export grid |
| `designer.dfy` | `Designer` | the `PanelDesigner` class, whose fields its methods update in place, each specified by the functions above |

Canvas item ids are abstract integers taken from a counter, so every new item has
an id no earlier item has. The JSON store is a map from panel name to record. A
dialog's answer is a parameter of the method that handles it. "Cancel" on the
compartment prompt is a count of 0.

## Model

| member | source | states |
|---|---|---|
| Text.TrimLeftSpec | main.py:932-933 | `lstrip` keeps a suffix of the input, removes only whitespace, and leaves no leading whitespace |
| Text.TrimRightSpec | main.py:932-933 | `rstrip` keeps a prefix of the input, removes only whitespace, and leaves no trailing whitespace |
| Text.TrimLeft | main.py:932-933 | `lstrip()` never lengthens the string and leaves no leading whitespace |
| Text.TrimRight | main.py:932-933 | `rstrip()` never lengthens the string and leaves no trailing whitespace |
| Text.Strip | main.py:932-933 | `strip()` never lengthens the string and leaves no whitespace at either end |
| Text.StripNoNew | main.py:559-560 | `strip()` only removes characters, so a character absent from the input is absent from the result |
| Text.TrimLeftPadded | main.py:332 | stripping leading whitespace from padding followed by a non-blank word returns the word |
| Text.TrimRightPadded | main.py:332 | stripping trailing whitespace from a word followed by padding returns the word |
| Text.StripPadded | main.py:332 | `strip()` of a word surrounded by whitespace is that word |
| Text.DigitChar | main.py:383 | digit character and digit value are inverse |
| Text.NatToString | main.py:1045 | `str(n)` is a non-empty digit string without a leading zero |
| Text.DigitsRoundTrip | main.py:383 | reading back the digits `str(n)` prints gives `n` |
| Text.NatToStringInjective | main.py:1045 | different counters print differently |
| Text.ParseIntOfNat | main.py:337 | `int()` accepts what `str()` printed, with any whitespace around it |
| Text.ParseInt | main.py:337 | `int()` succeeds only on text that is non-blank once stripped and all digits after its first character, and a negative result needs a leading '-' (the depth prompt here and the runs prompt at main.py:643) |
| Text.Split | main.py:383 | `split(sep)` gives a non-empty list of parts (a part may be empty), none containing `sep`, that join back to the input |
| Text.SplitAfterPrefix | main.py:559-560 | splitting `a + sep + b` with `sep` not in `a` gives `a` followed by the parts of `b` |
| Text.SplitWithoutSep | main.py:559-560 | a string without the separator splits into itself |
| Text.SplitOfJoin | main.py:383 | splitting a join of separator-free parts gives back the parts |
| Text.RemoveAll | main.py:383 | `replace(pat, "")` never lengthens the string |
| Text.RemoveAllPrefix | main.py:383 | a prefix that cannot start the pattern survives `replace` unchanged |
| Text.RemoveAllLeading | main.py:383 | a leading occurrence of the pattern is removed |
| Text.Lower | main.py:547 | `lower()` keeps the length and lowers each character |
| Layout.RemoveMmOfFormat | main.py:383 | removing "mm" from "Wmm x Hmm" leaves "W x H" |
| Layout.SplitSize | main.py:383 | "W x H" splits at 'x' into exactly "W " and " H" |
| Layout.ParseFormatCubicleSize | main.py:383 | parsing a size written as "Wmm x Hmm" gives back (W, H) |
| Layout.ParseCubicleSize | main.py:383 | a size is read only when, with "mm" removed, it has exactly one 'x', an integer before it (the width) and an integer after it (the height) |
| Layout.SizesOfHeight1800 | main.py:112 | the first row of the size list is 600/800/1000 mm wide and 1800 mm high |
| Layout.SizesOfHeight2000 | main.py:113 | the second row of the size list is 600/800/1000 by 2000 mm |
| Layout.SizesOfHeight400 | main.py:114 | the third row of the size list is 600/800/1000 by 400 mm |
| Layout.SizesOfHeight600 | main.py:115 | the fourth row of the size list is 600/800/1000 by 600 mm |
| Layout.CubicleSizesPrinted | main.py:111-116 | every entry of the size list is the "Wmm x Hmm" form of its dimensions |
| Layout.CubicleSizesParse | main.py:111-116 | every size the dialog offers parses to its width and height |
| Layout.CubicleOrigin | main.py:386-391 | the first cubicle sits at (50, 50); a later one sits at the last one's y and at its x plus its width × 0.2 |
| Layout.NewCubicle | main.py:383-395 | a new cubicle is drawn at the tiling origin, 0.2 units per mm wide and high, with no compartments |
| Layout.AppendKeepsTiled | main.py:386-396 | appending a new cubicle keeps every cubicle starting at its left neighbour's x plus that neighbour's width × 0.2, at the same y |
| Layout.Band | main.py:430-439 | a compartment has six sections in `SECTION_NAMES` order, with consecutive canvas ids and no item |
| Layout.Bands | main.py:427-441 | `num` bands are drawn in order, band `k` taking the ids after the previous bands' sections |
| Layout.BandOfSections | main.py:433-439 | the six sections drawn one by one make up exactly the band |
| Layout.RowStep | main.py:428-429 | each band's top is the previous band's top plus the band height |
| Layout.LastRowBottom | main.py:425-429 | the last of `num` bands of height (y2 − y1) / num ends at the cubicle's bottom |
| Layout.BandTopBottom | main.py:428-429 | a band spans from y1 + row × height to that plus the height |
| Layout.BandsStack | main.py:425-441 | the bands of a fresh cubicle stack from its top to its bottom, each (y2 − y1) / num high, without gap or overlap |
| Layout.BandSectionsTile | main.py:432-436 | a band's sections span its full height and tile its width left to right, each (x2 − x1) / 6 wide |
| Layout.SplitTextIntoColumns | main.py:472-478 | the chunks concatenate back to the label; every chunk is non-empty and at most `max_lines` long; all but the last are exactly `max_lines` |
| Layout.ColumnCount | main.py:476-477 | the number of chunks is the label length divided by `max_lines`, rounded up |
| Layout.VisibleColumns | main.py:506-507 | the drawn columns are the first `max_cols_fit`; the text is truncated exactly when some column is not drawn |
| Layout.VisibleTextIsPrefix | main.py:500-507 | the drawn columns spell a prefix of the label, `k × max_lines` characters long |
| EditSpec.CubicleIndex | main.py:1226 | `list.remove` takes the first cubicle with the id; there is none exactly when no cubicle has it |
| EditSpec.BusbarIndex | main.py:785-788 | the first busbar with the line id; none exactly when no busbar has it |
| EditSpec.HandleIndex | main.py:808-809 | the first busbar whose resize handle has the id; none exactly when no handle has it |
| EditSpec.IndexOfSameIds | main.py:785-788 | the lookups depend only on the line and handle ids, so a drag never changes which busbar is found |
| EditSpec.LastIndexIsFresh | main.py:396 | a cubicle appended with a fresh id is the one found under that id |
| EditSpec.LastBusbarIsFresh | main.py:720 | a busbar appended with a fresh id is the one found under that id |
| EditSpec.CreateCompartments | main.py:422-441 | the cubicle keeps its id, size, rectangle and existing compartments; `num` bands of height (y2 − y1) / num are appended, band `k` at row `k` |
| EditSpec.AddCubicle | main.py:381-399 | exactly one cubicle is appended, with the next id, the chosen size, drawn at the tiling origin; with `count` 0 it has no compartments, otherwise it is exactly `CreateCompartments` of the new cubicle with `count` bands of six empty sections whose ids follow the cubicle's; one `add_cubicle` entry is pushed; busbars are unchanged |
| EditSpec.AddCubicleKeepsTiled | main.py:386-396 | adding a cubicle keeps the row tiled; the first one sits at (50, 50) |
| EditSpec.FreshBands | main.py:422-441 | cutting a cubicle with no compartments stacks the bands from its top to its bottom |
| EditSpec.AddCubicleBands | main.py:417-441 | a confirmed compartment prompt leaves the new cubicle with `count` bands stacked from top to bottom |
| EditSpec.SetItem | main.py:564-582 | exactly one section's item changes; every other cubicle, compartment and section is unchanged |
| EditSpec.SetItemRestore | main.py:1238 | writing back the previous item undoes setting a new one |
| EditSpec.Select | main.py:564-595 | the section gets the chosen model and description; the undo entry records where it is and what it held before; busbars are unchanged |
| EditSpec.VerticalBusbar | main.py:707-719 | a vertical busbar sized from amperage and density, 250 units long |
| EditSpec.HorizontalBusbar | main.py:749-761 | a horizontal busbar sized from amperage and density, 200 units long |
| EditSpec.TerminalBusbar | main.py:656-677 | a terminal of the given size, runs and phase, 200 units long if horizontal and 250 if vertical |
| EditSpec.AddBusbar | main.py:720-721 | exactly one busbar is appended, with fresh line and handle ids, and one `add_busbar` entry is pushed; cubicles are unchanged |
| EditSpec.TranslateKeepsLength | main.py:783 | dragging a line keeps its length, and dragging it back restores it |
| EditSpec.ResizeChangesLength | main.py:815-818 | stretching changes the length by the pointer offset along the busbar's axis and keeps the start point |
| EditSpec.Translate | main.py:783 | moving both ends by the same offset keeps the line's horizontal and vertical extent |
| EditSpec.ResizeEnd | main.py:815-818 | stretching keeps the start point, and keeps the end's x for a vertical busbar and its y for a horizontal one |
| EditSpec.DraggedLine | main.py:783-788 | a dragged busbar differs only in its coordinates, and its length is kept |
| EditSpec.DraggedHandle | main.py:815-825 | a resized busbar differs only in its coordinates, and its start point is kept |
| EditSpec.PointerMoved | main.py:776-825 | a motion event keeps the number of busbars and does nothing while nothing is held |
| EditSpec.PointerMovedCases | main.py:776-825 | which of the four cases a motion event takes: a held line is translated (`DraggedLine`), a held handle stretched (`DraggedHandle`), the pointer position is recorded, an unknown item changes nothing; the geometric content is in `TranslateKeepsLength`, `ResizeChangesLength` and `MovesCompose` |
| EditSpec.PointerMovedKeeps | main.py:785-788 | dragging keeps every busbar's ids, orientation, phase and sizing |
| EditSpec.PointerMovedValid | main.py:776-825 | dragging keeps the document's id invariants |
| EditSpec.MovesCompose | main.py:778-781 | two motion events move a busbar exactly as far as one event to the final position |
| EditSpec.LineMovesCompose | main.py:776-788 | two line-drag events compose into one |
| EditSpec.LineMoved | main.py:776-788 | a line-drag event replaces the found busbar by `DraggedLine` with the pointer offset from its last position; that this keeps its length and composes is `TranslateKeepsLength` and `LineMovesCompose` |
| EditSpec.HandleMovesCompose | main.py:808-825 | two resize events compose into one |
| EditSpec.HandleMoved | main.py:808-825 | a resize event replaces the found busbar by `DraggedHandle` with the pointer offset from its last position; its length change and composition are `ResizeChangesLength` and `HandleMovesCompose` |
| EditSpec.RestoreItem | main.py:1238-1245 | when the recorded cubicle is gone, the cubicles are unchanged |
| EditSpec.Undo | main.py:1215-1245 | an empty stack changes nothing; otherwise exactly the top entry is popped; when the undo fails (`TargetMissing`) the lists are unchanged |
| EditSpec.UndoFailsExactly | main.py:1220-1245 | the undo fails exactly when the cubicle or busbar to remove is gone from its list, or the cubicle of a selection that replaced an item is gone, so that the redraw at main.py:494 raises |
| EditSpec.ClearPanel | main.py:347-348 | creating a panel empties cubicles and busbars but keeps the undo stack |
| EditSpec.UndoAfterClear | main.py:1220-1245 | undoing an addition, or a choice that replaced an item, made before "Create Panel" pops the entry, fails, and changes nothing else |
| EditSpec.StepValid | main.py:393-397 | every logged edit keeps cubicle ids and busbar line ids below the id counter and distinct within their own list, handle ids below the counter, and every compartment six-section |
| EditSpec.RemoveCubicleValid | main.py:1226 | removing a cubicle keeps the document valid |
| EditSpec.RemoveBusbarValid | main.py:1229 | removing a busbar keeps the document valid |
| EditSpec.SetItemValid | main.py:582 | setting an item keeps the document valid |
| EditSpec.UndoValid | main.py:1215-1245 | undo keeps the document valid |
| EditSpec.UndoAddCubicle | main.py:1221-1226 | undo right after adding a cubicle removes exactly that cubicle and its entry |
| EditSpec.UndoSelect | main.py:1230-1245 | undo right after choosing a component restores the section's previous item, or none |
| EditSpec.UndoAddBusbar | main.py:1227-1229 | undo right after spawning a busbar removes exactly that busbar and its entry |
| EditSpec.UndoStep | main.py:1215-1245 | undo right after any logged edit restores the document's content |
| EditSpec.UndoCongruent | main.py:1215-1245 | undo depends on the content, not on the id counter |
| EditSpec.UndoTimesCongruent | main.py:1215-1245 | so does any number of undos |
| EditSpec.ReplayValid | main.py:1215-1245 | any sequence of logged edits keeps the document valid |
| EditSpec.ReplayThenUndo | main.py:1215-1245 | undoing as many times as edits were made restores the original content |
| EditSpec.UndoOnceMore | main.py:1220-1245 | one more undo steps back over the next earlier edit |
| Persistence.SaveCompartment | main.py:903-912 | each section is saved with its name and its item's model and description, in order |
| Persistence.SaveCubicle | main.py:895-913 | a cubicle is saved with its coordinates, width, height and compartments, in order |
| Persistence.Save | main.py:888-913 | the record carries the project info, the depth, every cubicle in order and every busbar's data in order |
| Persistence.SaveIsCanonical | main.py:903-911 | everything the editor saves has six named sections per compartment and can be loaded |
| Persistence.RestoreCompartment | main.py:857-864 | a saved item is put back in the section at the same index; sections with no saved item keep their drawn state; saved sections past the band without an item are passed over, as the `if item:` test does |
| Persistence.LoadedCubicle | main.py:842-864 | a loaded cubicle has the saved size, coordinates and compartment count, and six named sections per compartment |
| Persistence.LoadCubicle | main.py:842-855 | each loaded cubicle is appended and logs an `add_cubicle` entry; busbars are unchanged |
| Persistence.LoadCubicles | main.py:842-864 | the saved cubicles are appended in order, each logging one `add_cubicle` entry |
| Persistence.LoadCubiclesValid | main.py:842-864 | loading cubicles keeps the document valid |
| Persistence.LoadBusbar | main.py:866-872 | a loaded busbar gets fresh line and handle ids and is not logged for undo |
| Persistence.LoadBusbars | main.py:866-872 | the saved busbars are appended in order with their data; the undo stack is unchanged |
| Persistence.Load | main.py:831-872 | loading gives a valid document and logs one `add_cubicle` entry per loaded cubicle on top of the old stack |
| Persistence.RestoredSaves | main.py:857-911 | restoring a saved compartment into a fresh band and saving it gives back the saved compartment |
| Persistence.LoadedCubicleSaves | main.py:842-913 | saving a loaded cubicle gives back its record |
| Persistence.LoadedCompartmentSaves | main.py:857-864 | each rebuilt compartment of a canonical record saves back to its saved compartment |
| Persistence.SaveAfterLoad | main.py:840-913 | saving right after loading a saved panel reproduces the record |
| Persistence.SaveLoadSave | main.py:840-913 | save, load, save gives the first save again |
| Persistence.LoadRestores | main.py:840-872 | a load restores each cubicle's width, height, (x, y) and compartment count, every section's item by index, and the busbar list |
| Persistence.LoadCubicleAsWritten | main.py:422-425 | as written, a saved cubicle with no compartments fails at the division by zero, after the cubicle was appended |
| Persistence.CubiclesAsWrittenSucceed | main.py:842-855 | the load as written succeeds exactly when every saved cubicle has a compartment |
| Persistence.CubiclesAsWritten | main.py:842-864 | when it succeeds, the load as written equals the corrected load |
| Persistence.LoadAsWrittenAgrees | main.py:831-872 | the whole load as written succeeds exactly when every cubicle has a compartment, and then agrees with the corrected load |
| Persistence.LoadCubiclesAsWritten | main.py:842-864 | the cubicle loop as written never touches the busbars, and when it fails the last cubicle on the canvas is the one without compartments |
| Persistence.LoadAsWritten | main.py:831-872 | when the load as written fails no busbar is loaded and the last cubicle has no compartments; when it succeeds every saved busbar is loaded |
| Persistence.CancelledPromptBreaksLoad | main.py:417-425 | a valid panel whose compartment prompt was cancelled saves, fails to load as written, and round-trips through the corrected load |
| Persistence.PanelsForGroup | main.py:279-294 | the listed panels are exactly the stored ones of the designer's (customer, project, ref), each listed once |
| Persistence.DisplaySplits | main.py:1415 | the display name "c \| p \| r" splits at '\|' into its three fields |
| Persistence.GroupKey | main.py:1412 | each field of a project's grouping key is already stripped, so stripping again changes nothing |
| Persistence.DisplayInjective | main.py:1414-1416 | two groups without '\|' in their fields never share a display name |
| Persistence.AllProjects | main.py:1403-1419 | the groups are exactly the stripped (customer, project, ref) triples of stored panels with all three non-empty, each shown as "c \| p \| r" |
| Catalog.ImportRow | main.py:932-936 | a row is added exactly when its stripped model is non-empty and new, and then stripped; afterwards the model is in the catalogue |
| Catalog.ImportRowsExtends | main.py:930-936 | the import only appends, and `added` counts the appended entries |
| Catalog.ImportRows | main.py:930-936 | `added` never exceeds the number of rows read |
| Catalog.ImportRowsDistinct | main.py:934-935 | the catalogue never holds a model twice |
| Catalog.ImportRowsComplete | main.py:931-936 | every row with a non-empty stripped model ends up in the catalogue |
| Catalog.ImportRowsSound | main.py:931-936 | every appended entry is some row's stripped model and description, with a non-empty model |
| Catalog.Search | main.py:546-551 | exactly the entries whose lowered description or model contains the lowered search text are listed, as a subsequence of the catalogue in its order |
| Catalog.Matches | main.py:547-550 | an empty (lower-cased) search text matches every entry |
| Catalog.LowerIdempotent | main.py:547 | lowering twice is lowering once |
| Catalog.SearchIgnoresCase | main.py:547-550 | the search text's case does not matter |
| Catalog.EmptySearchListsAll | main.py:546-554 | an empty search lists the whole catalogue in order |
| Catalog.StripChar | main.py:559 | `strip(")")` never lengthens the string and only removes characters (its result's multiset is within the input's) |
| Catalog.ListLabel | main.py:551 | the label "desc (model)" is three characters longer than model and description together, starts with the description and ends with ")" |
| Catalog.ParseLabelAsWritten | main.py:558-560 | the split parse never yields a model or a description containing "(" — the reason a description such as "MCB (C curve)" is cut short |
| Catalog.SplitPlainLabel | main.py:559-560 | a label without "(" in its model or description splits at "(" into the description followed by a space, and the model followed by ")" |
| Catalog.AsWrittenLosesDescription | main.py:558-560 | as written, a description containing " (" is cut at its first parenthesis |
| Catalog.LastOpen | main.py:558-560 | the last " (" before a position, if any |
| Catalog.ParseLabel | main.py:551-560 | whatever the corrected parse returns prints back as the label it was given |
| Catalog.ParseListLabel | main.py:551-560 | the corrected parse recovers model and description from any list label whose model has no " (" |
| Catalog.AsWrittenAgreesOnPlainLabels | main.py:551-560 | on a label whose model has no parenthesis and whose description has no '(' and no surrounding whitespace, the split parse and the corrected parse give the same entry |
| Bom.NearestFit | main.py:1203-1213 | the first row of least area among those with area at least the query; none exactly when no row qualifies, including the empty table |
| Bom.ClampedLength | main.py:1035 | `max(0, int(length))` is the length rounded down, or 0 when negative |
| Bom.ClampedIsPythonMax | main.py:1035 | the same value as Python's truncating `int` followed by `max(0, ...)` |
| Bom.Trunc | main.py:975 | Python's `int()` on a float truncates toward zero: within one below a non-negative value, within one above a negative one (also the quantity at main.py:1035) |
| Bom.PhaseMultiplier | main.py:1054 | 2 for "Single Phase", 4 otherwise |
| Bom.Contribute | main.py:1019-1059 | a sized terminal adds clamped length × runs under its size; a computed busbar with positive amperage and density adds clamped length × row runs × phase multiplier under the nearest-fit row, or a zero line under a new `NO_MATCH_n` key; anything else adds nothing |
| Bom.NoMatchKeysDistinct | main.py:1045-1048 | different unmatched busbars get different keys |
| Bom.Bump | main.py:1036-1038 | adding a quantity under a key sets its description and adds to its total; other keys are unchanged |
| Bom.BumpCount | main.py:1036-1038 | the quantity goes to exactly one panel's count of exactly one key |
| Bom.BumpConsistent | main.py:1057-1059 | a bump keeps every total equal to the sum of its per-panel counts |
| Bom.AppendConsistent | main.py:998-1000 | recording a new relevant panel keeps the totals consistent |
| Bom.AddSection | main.py:1005-1017 | counting a section changes only the part and category tallies |
| Bom.AddSections | main.py:1004-1017 | counting sections changes only the part and category tallies |
| Bom.AddCompartments | main.py:1003-1017 | counting compartments changes only the part and category tallies |
| Bom.AddCubicles | main.py:1002-1017 | counting cubicles changes only the part and category tallies |
| Bom.AddBusbar | main.py:1019-1059 | a busbar changes only the busbar tallies and the no-match counter |
| Bom.AddBusbars | main.py:1019-1059 | busbars change only the busbar tallies and the no-match counter |
| Bom.Relevant | main.py:989-1000 | the relevant panels are exactly the listed stored panels of the designer's group |
| Bom.Aggregate | main.py:985-1059 | the totals record exactly the relevant panels |
| Bom.AggregateTotals | main.py:985-1059 | the nested loops compute exactly `Aggregate` |
| Bom.AddSectionConsistent | main.py:1010-1017 | counting a section keeps every part and category total equal to the sum of its per-panel counts |
| Bom.AddSectionsConsistent | main.py:1004-1017 | so does counting a compartment's sections |
| Bom.AddCompartmentsConsistent | main.py:1003-1017 | so does counting a cubicle's compartments |
| Bom.AddCubiclesConsistent | main.py:1002-1017 | so does counting a panel's cubicles |
| Bom.AddBusbarsConsistent | main.py:1019-1059 | adding busbars keeps every busbar total equal to the sum of its per-panel counts |
| Bom.AddPanelConsistent | main.py:998-1059 | processing a new relevant panel keeps all totals consistent |
| Bom.AddPanel | main.py:997-999 | a relevant panel is appended to the list of relevant panels, once, at the end |
| Bom.AggregateConsistent | main.py:985-1059 | for every part, category bucket and busbar key, the total is the sum of its per-panel counts |
| Bom.AddSectionsCount | main.py:1004-1012 | a panel's count of a model grows by the sections holding that model |
| Bom.AddCompartmentsCount | main.py:1003-1012 | likewise over compartments |
| Bom.AddCubiclesCount | main.py:1002-1012 | likewise over cubicles |
| Bom.AggregateCounts | main.py:993-1017 | each relevant panel's count of a model is the number of its sections holding that model; other panels count 0 |
| Bom.PanelColumns | main.py:1072-1073 | one column per relevant panel, holding that panel's count or 0 |
| Bom.ColumnsSum | main.py:1070-1074 | the columns add up to the sum of the per-panel counts |
| Bom.TotalIsRowSum | main.py:1070-1074 | in a consistent tally the "Total Qty" cell is the sum of the panel columns |
| Bom.Cell | main.py:970-971 | the cell is the model of some section with that name holding an item, or empty when none holds one |
| Bom.SectionNamesDistinct | main.py:118 | the six section names are distinct |
| Bom.CellOfPosition | main.py:970 | with a unique name, the cell is that section's model or empty |
| Bom.CellOfNamedSection | main.py:969-971 | in a six-section compartment, column `j` shows section `j`'s model |
| Bom.GridRow | main.py:968-972 | a row is "c,k" followed by the six section cells in `SECTION_NAMES` order |
| Bom.CubicleRows | main.py:967-972 | a cubicle gives one row per compartment, numbered from 1 |
| Bom.GridRowsCount | main.py:966-972 | the grid has one row per compartment of the panel |
| Bom.ExportRow | main.py:968-972 | the row-building loop produces exactly `GridRow` |
| Bom.ExportCubicle | main.py:967-972 | the per-cubicle loop produces the cubicle's rows |
| Bom.ExportGrid | main.py:965-972 | the grid is the header followed by every compartment's row, cubicle by cubicle |
| Bom.ExportLengthOfWhole | main.py:978-979 | on whole coordinates the exported length equals the busbar's length |
| Bom.ExportLength | main.py:975-976 | the exported length, taken from the truncated coordinates, is within 2 of the busbar's length |
| Designer.SectionIndex | main.py:565-568 | the first section with the clicked id; none exactly when no section has it |
| Designer.DrawBand | main.py:430-441 | the section-drawing loop builds exactly the band |
| Designer.FindSection | main.py:564-568 | the search loop finds the first section with the id |
| Designer.FindCubicle | main.py:1226 | the search loop finds the cubicle `list.remove` takes |
| Designer.FindLine | main.py:785-788 | the search loop finds the busbar whose line is dragged |
| Designer.FindHandle | main.py:822-825 | the search loop finds the busbar whose handle is dragged |
| Designer.RestoreSections | main.py:858-864 | the section loop restores saved items by index |
| Designer.RestoreItems | main.py:857-864 | the compartment loop restores each compartment's saved items |
| Designer.Labels | main.py:551 | each listed breaker is shown as "desc (model)" |
| Designer.PanelDesigner.constructor | main.py:148-169 | an empty panel with no name and no depth, nothing held, an empty undo stack, the stored catalogue and sizing table |
| Designer.PanelDesigner.CreatePanel | main.py:331-359 | a blank name or a depth that is not a positive integer changes nothing; otherwise the lists are cleared, the undo stack is kept, and the name and depth are set |
| Designer.PanelDesigner.CreateCompartments | main.py:422-441 | the cubicle gets `num` bands drawn with fresh ids; nothing else changes |
| Designer.PanelDesigner.AddCubicle | main.py:368-400 | with no panel nothing happens; otherwise the document takes the `AddCubicle` step for the chosen size |
| Designer.PanelDesigner.PlaceCubicle | main.py:383-399 | the cubicle is appended, logged and cut as `AddCubicle` says |
| Designer.PanelDesigner.ListEntries | main.py:546-551 | the list shows the search result's labels in catalogue order |
| Designer.PanelDesigner.SelectComponent | main.py:556-595 | with no selection, an unknown section, or a cubicle that has left the list while the popup was open (the source raises at main.py:494 before logging) nothing changes; otherwise the document takes the `Select` step with the model and description read back by the corrected `ParseLabel` (see Findings), which agrees with the split parse on plain labels (`AsWrittenAgreesOnPlainLabels`) |
| Designer.PanelDesigner.PlaceItem | main.py:581-595 | the item is written and the undo entry pushed as `Select` says |
| Designer.PanelDesigner.SpawnVerticalBusbar | main.py:707-723 | a vertical busbar is appended and logged |
| Designer.PanelDesigner.SpawnHorizontalBusbar | main.py:749-765 | a horizontal busbar is appended and logged |
| Designer.PanelDesigner.SpawnTerminal | main.py:641-681 | runs that are not a positive integer change nothing; otherwise a terminal is appended and logged |
| Designer.PanelDesigner.Press | main.py:768-771 | pressing a line or handle records it and the pointer position; nothing else changes |
| Designer.PanelDesigner.Release | main.py:773-774 | releasing forgets the held item |
| Designer.PanelDesigner.Move | main.py:776-825 | a motion event updates busbars and drag state as `PointerMoved` says and keeps the document valid |
| Designer.PanelDesigner.DragLine | main.py:776-788 | moving a held line updates it in place as `PointerMoved` says |
| Designer.PanelDesigner.DragHandle | main.py:808-825 | moving a held handle stretches its busbar in place as `PointerMoved` says |
| Designer.PanelDesigner.Undo | main.py:1215-1245 | the document and the outcome are those of the `Undo` step, failure cases included |
| Designer.PanelDesigner.RemoveCubicle | main.py:1226 | the first cubicle with the id is removed; if there is none nothing changes |
| Designer.PanelDesigner.RemoveBusbar | main.py:1229 | the first busbar with the id is removed; if there is none nothing changes |
| Designer.PanelDesigner.RestoreSection | main.py:1238-1245 | the recorded section gets its previous item back; it reports whether the section's cubicle is still in the list |
| Designer.PanelDesigner.SavePanel | main.py:883-919 | with no panel nothing is saved; otherwise the store maps the panel's name to `Save` of the document |
| Designer.PanelDesigner.LoadCubicle | main.py:842-864 | one saved cubicle is rebuilt in place as `LoadCubicle` says |
| Designer.PanelDesigner.LoadPanel | main.py:831-872 | the name is always set and the lists cleared; a missing file stops there; otherwise the document becomes `Load` of the record (the corrected load for a cubicle saved without compartments; see Findings) and the depth is restored |
| Designer.PanelDesigner.Rebuild | main.py:840-872 | the cleared panel is rebuilt as `Load` says |
| Designer.PanelDesigner.LoadCubicles | main.py:842-864 | the cubicle loop rebuilds every saved cubicle |
| Designer.PanelDesigner.LoadBusbars | main.py:866-872 | the busbar loop appends every saved busbar with fresh ids |
| Designer.PanelDesigner.LoadBreakerExcel | main.py:921-941 | a sheet without both columns changes nothing; otherwise the rows are imported as `ImportRows` says, and no model is held twice |
| Designer.PanelDesigner.GenerateBom | main.py:943-1059 | refused exactly when the panel has no cubicle; otherwise the grid of the current cubicles and the consistent totals of the group's stored panels |

## Left out

- Widgets, dialogs, tooltips, fonts, the colour palette, the theme and the footer are not modelled. A dialog's answer is a parameter.
- Google Sheets, OAuth, the PDF report, the version check and the software update are not modelled.
- File and JSON I/O, pandas CSV/Excel reading and `os.listdir` are not modelled:
  - the panel files are a map from name to record;
  - the order in which files are listed is the `listing` parameter;
  - the breaker spreadsheet is a sequence of (model, description) rows plus a flag saying whether both columns exist.
- Font-metric fitting (`_compute_text_layout`) and column pixel placement are not modelled. `max_lines` and `max_cols_fit` are parameters.
- Floats are `real`. Python's float rounding is not modelled.
- `delete_selected_cubicle` (main.py:406-415) has no button in the editor and is not part of this model.
- `load_all_projects` returns its display names sorted; that sort is not modelled. `AllProjects` returns the map alone.
- Designer.PanelDesigner.LoadPanel: a saved section past the sixth of its compartment that holds an item makes the source fail half-way through the rebuild (main.py:860). The model refuses such a record (`Unreadable`) right after clearing the lists, and does not reproduce the partial rebuild. Extra sections without an item load normally in both.
- Designer.PanelDesigner.AddCubicle: an unparsable size string makes the source raise. The model returns false and changes nothing. The read-only size list only offers sizes that parse (`CubicleSizesParse`).
- EditSpec.PointerMoved: a handle stays on the canvas after undo removes its line. When that handle is dragged, the source records the pointer position and then fails at the line's coordinates. The model leaves busbars and drag state unchanged.
- Bom.Contribute: the no-match description keeps only the phase; the amperage, density and area the source formats into it are not modelled.
- Bom.Contribute: the fallbacks for a busbar file missing `coords`, `phase` or a readable `no_of_runs` are not modelled. Every saved busbar has those fields.
- Bom.AddSection: the "Others" category for a section without a name is not modelled. Every saved section has a name.
- Bom.AggregateCounts is proved for part tallies only. Category and busbar tallies are covered by the consistency lemmas, not by per-panel count lemmas.
- Bom.ExportGrid: the busbar rows of the panel sheet are not built. Only their length column is modelled (`ExportLength`).
- The totals sheet's row order (dictionary insertion order) is not modelled. `PanelColumns` and `TotalIsRowSum` state its per-panel columns.
- Text.ParseInt: Python's `int()` also accepts underscores between digits and non-ASCII digits. The model accepts ASCII digits with an optional sign and surrounding whitespace.
- Text.Lower: only ASCII letters are lowered.
- A Tk `IntVar`/`DoubleVar` whose text is not a number raises when read in the busbar forms. The model takes the numbers as given.
- The `str()` conversion of spreadsheet cells (for example `nan` for an empty cell) is not modelled. A row is given as strings.
- The saved `color` of a cubicle is not modelled.

## Findings

| source | as written | input that shows it | evidently intended | confidence | as-written member | corrected member |
|---|---|---|---|---|---|---|
| main.py:855 | `load_panel` rebuilds each cubicle with `create_compartments(cubicle_data, len(cub["compartments"]))`, which divides the height by that count (main.py:425) | add a 600mm x 1800mm cubicle, cancel the compartment prompt (main.py:418-419), save, then open the panel: zero compartments, division by zero | a cubicle saved with no compartments loads with none, as `ask_compartments` skips the cut for a cancelled prompt | not executed | Persistence.CancelledPromptBreaksLoad | Persistence.SaveAfterLoad |
| main.py:559-560 | the list label "desc (model)" is parsed back by splitting at every "(": the model is the last part stripped of ")", the description is the first part | a breaker "X1" described as "MCB (C curve)" is listed as "MCB (C curve) (X1)" and is placed with description "MCB" | split at the last " (" so the description keeps its parentheses | not executed | Catalog.AsWrittenLosesDescription | Catalog.ParseListLabel |
