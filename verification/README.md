# Clutter box layout and entry editing, modelled in Dafny

This project models two parts of the Clutter toolkit and proves properties of them.

**`ClutterBoxLayout`** arranges the children of a container along one axis. The model covers:

- **Preferred-size aggregation** (`sizes.dfy`, module `SizeAggregator`). The box's minimum and natural size is the sum over its visible children on the main axis, plus the spacing between them. On the cross axis it is their maximum.
- **Slack distribution** (`distributor.dfy`, module `SlackDistributor`). This is `compare_gap` and `distribute_natural_allocation`. Children are raised from their minimum toward their natural size, sharing the free space evenly in the order of their gaps.
- **The allocation pass** (`allocation.dfy`, module `BoxAllocation`). This is `count_expand_children` and `clutter_box_layout_allocate`. It covers:
  - the homogeneous and the expanding share-outs of the main-axis extent;
  - placing each child's cell with a cursor that moves forward (pack start) or backward from the far edge;
  - filling or centring the child in its cell;
  - clamping the cross axis to at least one unit;
  - mirroring under right-to-left text.
- **The per-child policy and the layout settings** (`boxpolicy.dfy`, module `BoxPolicy`). These are the setters and getters, `pack`, the child defaults, `begin_animation`/`end_animation`, and whether a change starts an animation or requests a relayout.
- **The transition memory** of each child (`transition.dfy`, module `Transition`). This is `allocate_box_child`: while the layout animates, a child that already has a box moves from that remembered box toward its new one.

**`ClutterEntry`** (`entry.dfy`, module `TextEntry`) is modelled as an editing state machine over:

- its text, possibly NULL;
- the cursor position, where -1 means after the end;
- the font name;
- the cursor-visibility flag.

The getters of the entry (`get_text`, `get_position`, `get_font_name`, `get_visible_cursor`) return these fields unchanged. The `GString` calls the entry edits with, and the C-string copy `g_strdup` makes, are in `gstring.dfy` (module `GStr`). They follow GLib's documented guards.

Support modules:

- `cint.dfy` (module `CInt`) holds C's truncating division and the 32-bit conversions.
- `wrappers.dfy` (module `Optional`) holds `Option`.

Modelling conventions:

- Main-axis extents and requested sizes are whole numbers (`int`). In the source the extent is the `gfloat` difference `box->x2 - box->x1`, and the `sizes[]` array holds `gfloat` requests (clutter/clutter-box-layout.c:780-786). Only `size`, the cursor `x`/`y` and `child_size` are `gint` (927-929, 1025-1036). Coordinates are `real`.
- The unsigned 32-bit products `spacing * (n - 1)` are reduced modulo 2^32, as `guint` arithmetic does.
- So is the unsigned arithmetic in `clutter_entry_remove`.
- Calls into the rest of the actor tree are function parameters:
  - the child size queries;
  - `clutter_actor_allocate_align_fill` with `clutter_actor_get_allocation_box`;
  - `clutter_actor_box_interpolate`;
  - Pango's font-description parser.
- `clutter_actor_allocate` is the box returned for each child.

## Model

| member | source | states |
|---|---|---|
| SlackDistributor.CompareGap | clutter/clutter-box-layout.c:790-812 | `compare_gap` is zero only for an index compared with itself. It is negative, putting `a` first, exactly when `a` has the larger gap, or the same gap and the higher index. |
| SlackDistributor.CompareGapIsStrictTotal | clutter/clutter-box-layout.c:790-812 | `compare_gap` is antisymmetric and zero only for equal indices. It puts `a` first exactly when `a` has the larger gap, or the same gap and the higher index. |
| SlackDistributor.SpreadingOrder | clutter/clutter-box-layout.c:844-869 | The spreading order is a permutation of the indices, sorted by descending gap with ties broken by descending index. The loop therefore visits gaps in ascending order. |
| SlackDistributor.Distribute | clutter/clutter-box-layout.c:835-892 | A negative or zero extra space changes nothing and returns 0. Otherwise the remainder is non-negative and the space is conserved (remainder plus the raised minimums equals the old minimums plus the extra). Every child stays well formed. Naturals are unchanged and minimums only grow. |
| SlackDistributor.DistributeNaturalAllocation | clutter/clutter-box-layout.c:846-891 | The source's in-place loop (glue `(extra+i)/(i+1)`, grant `min(glue, gap)`, stop when no space is left) computes exactly `Distribute`, so it conserves the space. |
| SlackDistributor.SortIndicesSorted | clutter/clutter-box-layout.c:866-869 | Sorting the indices with `compare_gap` leaves every adjacent pair in `compare_gap` order. |
| SlackDistributor.WalkEnough | clutter/clutter-box-layout.c:874-889 | When the space left at a loop index covers the gaps still to visit, every one of those children reaches its natural size. The remainder drops by exactly those gaps. |
| SlackDistributor.WalkAllShort | clutter/clutter-box-layout.c:876-886 | When every child still to visit has a gap larger than the current glue, none of them reaches its natural size. |
| SlackDistributor.WalkNearlyFair | clutter/clutter-box-layout.c:856-889 | From any loop index on, any two visited children satisfy fairness goal (c) up to one unit. |
| SlackDistributor.WalkConserves | clutter/clutter-box-layout.c:874-889 | From any loop index, the walk conserves space. It keeps every child within [minimum, natural] and leaves a non-negative remainder. |
| SlackDistributor.DistributeEnough | clutter/clutter-box-layout.c:825-830 | When the extra space covers the total gap, every child ends exactly at its natural size. The remainder is the extra space minus the total gap. |
| SlackDistributor.WalkFloorShare | clutter/clutter-box-layout.c:876-886 | Floor-share bound: every child the walk visits either reaches its natural size or gains at least the floor of the extra space divided by the number of children visited. |
| SlackDistributor.DistributeNearlyFair | clutter/clutter-box-layout.c:856-860 | Fairness goal (c), up to one unit: a child left short of its natural size gained at least one unit less than any child that reached its natural size. |
| SlackDistributor.DistributeContinuous | clutter/clutter-box-layout.c:855-857 | Goal (b), continuity: one more unit of extra space leaves every child's size the same or one unit larger. |
| SlackDistributor.WalkContinuous | clutter/clutter-box-layout.c:874-889 | From any loop index, two walks whose remaining space differs by 0 or 1, from states that agree on the children still to visit, end with every child at most one unit apart. |
| SlackDistributor.DistributeNotMaximal | clutter/clutter-box-layout.c:852 | Goal (a) is not met: three equal requests (m, m+2) with 4 units of extra space end as m+(2,1,1), one child at its natural size. The split m+(2,2,0) spends the same 4 units and puts two children there. |
| SlackDistributor.DistributeNotExactlyFair | clutter/clutter-box-layout.c:859-860 | For sizes (0,2) and (0,2+k) and extra space 3, the first child reaches its natural size with +2 while the second stays short with +1. Goal (c) holds only up to one unit. |
| SizeAggregator.Measure | clutter/clutter-box-layout.c:490-552 | The children loop (reversed under right-to-left) returns the reference `Preferred` size. That is: the sum of the visible children's requests on the main axis, plus the wrapped spacing times (n-1) when n > 1; the maximum from 0 on the cross axis. |
| SizeAggregator.PreferredWidth | clutter/clutter-box-layout.c:478-552 | The width is the main axis exactly when the box is horizontal. Children are asked with the given height when horizontal, and with -1 otherwise. |
| SizeAggregator.PreferredHeight | clutter/clutter-box-layout.c:555-628 | The height is the main axis exactly when the box is vertical. Children are asked with the given width when vertical, and with -1 otherwise. |
| SizeAggregator.SpacingTotal | clutter/clutter-box-layout.c:544-551 | Spacing is added only between two or more children, and equals spacing times (n-1) while that product fits in 32 bits. |
| SizeAggregator.ReverseKeepsPreferred | clutter/clutter-box-layout.c:496-508 | With exact arithmetic, walking the children in reverse, as right-to-left does, gives the same minimum and natural size on either axis. |
| SizeAggregator.NoVisibleChildIsEmpty | clutter/clutter-box-layout.c:490-494 | With no visible child both sizes are 0. |
| SizeAggregator.InvisibleChildIgnored | clutter/clutter-box-layout.c:513-514 | Inserting an invisible child anywhere changes neither size. |
| SizeAggregator.CrossIsLargest | clutter/clutter-box-layout.c:525-532 | The cross-axis sizes are non-negative upper bounds of every visible child's request. Each is 0 or attained by some child. |
| SizeAggregator.MainGrowsByChild | clutter/clutter-box-layout.c:533-551 | Appending a visible child grows the main-axis sizes by its request, plus one spacing if another visible child was already there. |
| BoxAllocation.CountExpandChildren | clutter/clutter-box-layout.c:747-778 | Counts the visible children, and the visible children that expand. |
| BoxAllocation.Positions | clutter/clutter-box-layout.c:932-975 | The k-th visible child sits at a strictly increasing list index at or after k. |
| BoxAllocation.PositionsCover | clutter/clutter-box-layout.c:932-975 | Every visible child has a visible index, so the sizes array holds an entry for it. |
| BoxAllocation.PositionsAreIndices | clutter/clutter-box-layout.c:1040-1070 | A visible child's list index equals its visible index, for every child, exactly when no invisible child precedes a visible one. |
| BoxAllocation.SharesAt | clutter/clutter-box-layout.c:1058-1081 | Each eligible child gets `extra`, plus one more exactly when fewer than `bonuses` eligible children come after it (those are visited first). |
| BoxAllocation.SharesSum | clutter/clutter-box-layout.c:1058-1081 | The share-out hands out `extra` per eligible child plus min(bonuses, eligible count) single units. |
| BoxAllocation.SpacingTotal | clutter/clutter-box-layout.c:926-929 | The spacing taken off the extent is spacing times (n-1) while that product fits in 32 bits. It is never negative. |
| BoxAllocation.HomogeneousSizes | clutter/clutter-box-layout.c:979-990 | Homogeneous mode: every cell is the truncated (extent - spacing)/n, plus one for the first (extent - spacing) mod n children in traversal order. Cells sum to that size when it is non-negative. Each cell keeps the child's requested minimum. |
| BoxAllocation.ExpandingSizes | clutter/clutter-box-layout.c:993-1081 | Non-homogeneous mode: each minimum is raised within [minimum, natural]. Expanding children also get the leftover divided by the number of expanders, and the last leftover mod that number in list order get one more. With no expander the leftover is unused. |
| BoxAllocation.ExpandingSum | clutter/clutter-box-layout.c:993-1006 | With room to spare and at least one expander, the cells use the whole free extent. |
| BoxAllocation.PlanIsShares | clutter/clutter-box-layout.c:1057-1082 | The cells read by visible index are the share-out of the distributor's result, keeping each child's fill flag. |
| BoxAllocation.PlaceAt | clutter/clutter-box-layout.c:1084-1133 | The cursor at each child is the start plus (pack start) or minus (otherwise) the size-plus-spacing of every later child. |
| BoxAllocation.PlaceBackward | clutter/clutter-box-layout.c:1027-1133 | Without pack start the cells tile the axis in list order, one spacing apart. The last child's cell ends at the far edge, so the first child lands nearest the origin. |
| BoxAllocation.PlaceForward | clutter/clutter-box-layout.c:1033-1126 | With pack start each child's cell starts after the cells of all later children, so the last child sits at the origin. |
| BoxAllocation.PackStartMirrors | clutter/clutter-box-layout.c:1098-1133 | The pack-start placement of a child is the mirror image, within the extent, of its placement without pack start. |
| BoxAllocation.AdvanceSum | clutter/clutter-box-layout.c:1100-1129 | The cursor travels the sum of the cell sizes plus one spacing per child. |
| BoxAllocation.CellsCoverExtent | clutter/clutter-box-layout.c:979-1133 | When the sizes fit and the whole free extent is handed out (homogeneous mode, or some child expands), the first cell starts exactly at the origin. |
| BoxAllocation.Scatter | clutter/clutter-box-layout.c:1039-1055 | Each visible child gets the box of its visible index, and only visible children get one. |
| BoxAllocation.Allocate | clutter/clutter-box-layout.c:897-1152 | One result per child, holding a box exactly when the child is visible. |
| BoxAllocation.CrossAxis | clutter/clutter-box-layout.c:1020-1032 | On the cross axis every allocated box spans [0, max(1, cross extent)]. |
| BoxAllocation.PlanIgnoresDirection | clutter/clutter-box-layout.c:1009-1017 | The cell sizes do not depend on orientation, pack direction or text direction. This holds by construction: the share-out at 979-1007 reads none of them, and the model's plan is not given them. |
| BoxAllocation.RightToLeftMirrors | clutter/clutter-box-layout.c:1135-1141 | For cells that fit, a horizontal right-to-left layout without pack start equals the left-to-right layout with pack start. |
| BoxAllocation.AllocateAsWritten | clutter/clutter-box-layout.c:1039-1120 | The allocation with the placement loop as written, reading `sizes[i]` at the list position `i`. When no read falls outside the array it gives one result per child, a box exactly for the visible ones. |
| BoxAllocation.AsWrittenFails | clutter/clutter-box-layout.c:1039-1120 | The placement loop as written reads the sizes array out of its bounds exactly when an invisible child precedes a visible one (non-homogeneous mode). |
| BoxAllocation.AsWrittenHiddenFirst | clutter/clutter-box-layout.c:1070 | An invisible child followed by a visible one already makes the loop as written read past the sizes array. |
| BoxAllocation.AsWrittenHiddenFirstHomogeneous | clutter/clutter-box-layout.c:1094-1119 | In a homogeneous box, an invisible child followed by a visible one that does not fill its cell already makes the loop as written read past the sizes array. |
| BoxAllocation.AsWrittenAgrees | clutter/clutter-box-layout.c:1039-1120 | When no invisible child precedes a visible one, the loop as written gives exactly the corrected allocation. |
| BoxPolicy.InitialDefaults | clutter/clutter-box-layout.c:1415-1429 | A new layout has no container and is not animating. The getters report spacing 0, horizontal, not homogeneous, packed from the end, animations off, easing mode `CLUTTER_EASE_OUT_CUBIC` and a duration of 500. |
| BoxPolicy.AlignmentFactor | clutter/clutter-box-layout.c:426-442 | The factor lies in [0, 1]. It is 0 exactly for start and 1 exactly for end. |
| BoxPolicy.Set | clutter/clutter-box-layout.c:1455-2197 | A setter stores its value and leaves the other settings and the container alone. An unchanged value changes nothing. A real change to spacing, orientation, homogeneity or pack direction starts an animation when animations are on, and otherwise reports one relayout. The animation settings only store their value. |
| BoxPolicy.SetIdempotent | clutter/clutter-box-layout.c:1465-1483 | Setting a value twice is setting it once. |
| BoxPolicy.SetOrderIrrelevant | clutter/clutter-box-layout.c:1455-2197 | Two setters of different settings commute on the stored settings. |
| BoxPolicy.AnimatedChange | clutter/clutter-box-layout.c:1473-1480 | With animations turned on, a layout-shaping change starts an animation instead of a relayout. |
| BoxPolicy.BeginAnimation | clutter/clutter-box-layout.c:1155-1168 | Sets the animating flag. The settings and the container are untouched. |
| BoxPolicy.EndAnimation | clutter/clutter-box-layout.c:1171-1181 | Clears the animating flag. The settings and the container are untouched. |
| BoxPolicy.ChildSetAlign | clutter/clutter-box-layout.c:161-205 | Stores both alignments and nothing else. It reports a change exactly when one differed. |
| BoxPolicy.ChildSetFill | clutter/clutter-box-layout.c:207-251 | Stores both fill flags and nothing else. It reports a change exactly when one differed. |
| BoxPolicy.ChildSetExpand | clutter/clutter-box-layout.c:253-278 | Stores the expand flag and nothing else. It reports a change exactly when it differed. |
| BoxPolicy.Commit | clutter/clutter-box-layout.c:182-204 | A child's policy change replaces only that child's record. It reports one layout change when something changed, and none otherwise. |
| BoxPolicy.SetAlignment | clutter/clutter-box-layout.c:1753-1792 | Without a container or a record for the actor nothing changes. Otherwise the getter then returns the new alignments. |
| BoxPolicy.GetAlignment | clutter/clutter-box-layout.c:1807-1850 | Has a value exactly when the actor has a record. |
| BoxPolicy.SetFill | clutter/clutter-box-layout.c:1865-1905 | Without a container or a record nothing changes. Otherwise the getter then returns the new fill flags. |
| BoxPolicy.SetExpand | clutter/clutter-box-layout.c:1975-2015 | Without a container or a record nothing changes. Otherwise the getter then returns the new flag. |
| BoxPolicy.GetFill | clutter/clutter-box-layout.c:1919-1961 | Has a value exactly when the actor has a record. |
| BoxPolicy.GetExpand | clutter/clutter-box-layout.c:2027-2064 | True only for an actor that has a record. |
| BoxPolicy.ChildDefaults | clutter/clutter-box-layout.c:414-424 | A new child record is centred both ways (factor 0.5), neither fills nor expands, and has no remembered box. |
| BoxPolicy.AddActor | clutter/clutter-box-layout.c:1727 | A new actor is appended with the default record (centre, centre, no fill, no expand, no last box). An actor already there is left as it was. |
| BoxPolicy.Pack | clutter/clutter-box-layout.c:1701-1738 | Without a container, `pack` changes nothing. With one, the container stays and the actor has a child record afterwards. |
| BoxPolicy.PackPolicy | clutter/clutter-box-layout.c:1702-1738 | After `pack` the actor is a child, the container stays consistent, and the getters return the packed alignment, fill and expand. |
| BoxPolicy.PackFrame | clutter/clutter-box-layout.c:1727-1737 | `pack` leaves every other child's record unchanged. |
| BoxPolicy.PackKeeps | clutter/clutter-box-layout.c:1727-1737 | `pack` keeps the actor's transition memory and the layout settings. |
| BoxPolicy.PackCount | clutter/clutter-box-layout.c:1735-1737 | `pack` reports one layout change per policy group it actually changed. |
| BoxPolicy.NoContainerNoEffect | clutter/clutter-box-layout.c:1719-1725 | Without a container, `pack` and the child setters do nothing, and the getters return nothing or false. |
| BoxPolicy.ChildSetCurrentIsIdentity | clutter/clutter-box-layout.c:168-182 | Setting a child's current values changes nothing and reports nothing. |
| Transition.AllocateBoxChild | clutter/clutter-box-layout.c:630-706 | While animating, a child with a remembered box is given the interpolation from that box to its settled box, and its record is unchanged. Otherwise it is given its settled box, which it remembers. Either way it has a box afterwards and its policy is untouched. |
| Transition.ReplayRemembers | clutter/clutter-box-layout.c:659-702 | After any run of passes the child remembers the settled box of the last pass that stored one: a non-animating pass, or a first pass with no box yet. |
| Transition.AnimationKeepsStart | clutter/clutter-box-layout.c:659-696 | Through an animation, a child with a box keeps that box as the start of every interpolation. |
| GStr.Insert | clutter/clutter-entry.c:926-927 | A NULL string or a position past the end changes nothing. A negative position appends. Otherwise the C string goes in at the position. |
| GStr.Erase | clutter/clutter-entry.c:965-966 | A position outside the string, or a range running past its end, changes nothing. A negative length erases to the end. Otherwise exactly the range goes. |
| GStr.CString | clutter/clutter-entry.c:537 | The copy is the longest NUL-free prefix. |
| GStr.InsertChar | clutter/clutter-entry.c:845-847 | A position past the end changes nothing. A negative position appends. Otherwise exactly one character goes in at the position. |
| GStr.CStringStops | clutter/clutter-entry.c:537 | The copy of a NUL-free string followed by NUL and anything else is that string. |
| GStr.EditsKeepNulFree | clutter/clutter-entry.c:845-966 | Inserting a C string or erasing never brings a NUL into a NUL-free string. |
| GStr.EraseAfterInsert | clutter/clutter-entry.c:926-966 | Erasing what was just inserted gives the string back. |
| GStr.InsertAfterErase | clutter/clutter-entry.c:926-966 | Re-inserting what was just erased gives the string back. |
| TextEntry.InitialState | clutter/clutter-entry.c:398-435 | The initial entry `Initial`: a new entry has no text, the cursor at -1, font "Sans 10" and a visible cursor, and is well formed. |
| TextEntry.SetText | clutter/clutter-entry.c:525-546 | The text read back is the text set (NULL for NULL). The cursor and everything else are untouched. |
| TextEntry.SetTextStopsAtNul | clutter/clutter-entry.c:537 | A NUL inside the new text cuts it short. |
| TextEntry.SetTextLeavesStaleCursor | clutter/clutter-entry.c:525-546 | Setting a shorter text can leave the cursor past its end. |
| TextEntry.SetPosition | clutter/clutter-entry.c:776-797 | With no text nothing happens. Otherwise the cursor becomes the position exactly when it is -1 or before a character, and -1 otherwise. |
| TextEntry.SetPositionIdempotent | clutter/clutter-entry.c:788-793 | Setting a position twice is setting it once. |
| TextEntry.Add | clutter/clutter-entry.c:833-856 | An invalid character changes nothing. A valid one leaves a text. The cursor moves only when it was after the first position. |
| TextEntry.AddInsertsAtCursor | clutter/clutter-entry.c:845-852 | A non-NUL character is appended (cursor -1), put in front (cursor 0, which stays 0), or put before the cursor's character, after which the cursor moves past it. The entry stays well formed. |
| TextEntry.TypingAtStartReverses | clutter/clutter-entry.c:851-852 | Because the cursor at 0 does not advance, typing "a" then "b" there reads "ba". |
| TextEntry.AddNulTruncates | clutter/clutter-entry.c:845-849 | Adding NUL cuts the text at the cursor. At position 0 this empties the text while the cursor stays at 0. |
| TextEntry.Remove | clutter/clutter-entry.c:867-899 | With no text nothing happens. The text stays non-NULL. A cursor at 0 or -1 stays put. |
| TextEntry.RemoveBeforeCursor | clutter/clutter-entry.c:884-895 | With the cursor at -1, `num` characters up to the end go. With the cursor after the first position, the `num` characters before the cursor go and the cursor moves back by `num`. The entry stays well formed. |
| TextEntry.RemoveNothingBefore | clutter/clutter-entry.c:887-890 | With the cursor at 0, or asking for more characters than the text holds with the cursor at the end, nothing changes. The unsigned start lands past the text, or the range from it runs past the end, which `g_string_erase` refuses, or the range is empty. |
| TextEntry.RemoveTooMany | clutter/clutter-entry.c:890-895 | Asking for more characters than precede the cursor removes none. The cursor becomes -1 when `num` exceeds it by at most 2^31. Otherwise it becomes `set_position` of the 2^32-wrapped difference, which is that position when it falls before a character and -1 when it does not. |
| TextEntry.RemoveAfterAdd | clutter/clutter-entry.c:833-899 | Removing one character after adding one gives the text back, except with the cursor at 0, where nothing is removed. |
| TextEntry.InsertText | clutter/clutter-entry.c:913-933 | Always leaves a text (a NULL text becomes a string). The cursor and the other fields are untouched. |
| TextEntry.InsertTextSplices | clutter/clutter-entry.c:926-929 | The text goes in at the position, at the end for a negative one, and nowhere for one past the end. The cursor is unchanged and the entry stays well formed. |
| TextEntry.DeleteText | clutter/clutter-entry.c:947-972 | With no text nothing happens. The cursor and the other fields are untouched. |
| TextEntry.DeleteTextRemoves | clutter/clutter-entry.c:960-968 | [start, end) goes. A negative `end - start` deletes from `start` to the end. A range outside the text changes nothing. |
| TextEntry.DeleteAfterInsert | clutter/clutter-entry.c:913-972 | Deleting text just inserted at a position gives the text back. |
| TextEntry.DeleteAfterAppend | clutter/clutter-entry.c:913-972 | Deleting text just appended gives the text back. |
| TextEntry.DeleteTextLeavesStaleCursor | clutter/clutter-entry.c:947-972 | Deleting can leave the cursor past the end of the text. |
| TextEntry.RequestedFont | clutter/clutter-entry.c:587-588 | The requested font is a non-empty C string. NULL and "" ask for the default. |
| TextEntry.SetFontName | clutter/clutter-entry.c:579-624 | Only the font name can change. A name the parser accepts is stored, and a rejected one changes nothing. |
| TextEntry.SetFontNameIdempotent | clutter/clutter-entry.c:587-593 | Asking for the same font twice is asking once. NULL and "" both mean "Sans 10". |
| TextEntry.SetVisibleCursor | clutter/clutter-entry.c:982-993 | Sets the cursor-visibility flag and nothing else. |
| TextEntry.CursorIndex | clutter/clutter-entry.c:228-239 | For a cursor within the text, the index handed to Pango lies in [0, length], and is the length exactly when the position is -1. |
| TextEntry.CursorIndexInText | clutter/clutter-entry.c:228-239 | The drawn cursor index lies within the text, and at its end exactly when the position is -1. |
| TextEntry.EditsKeepWellFormed | clutter/clutter-entry.c:776-993 | Setting the position, inserting text, setting the font, setting cursor visibility, and removing (for texts shorter than 2^31) keep the cursor within the text and the text free of NULs. |
| TextEntry.AddKeepsWellFormed | clutter/clutter-entry.c:833-856 | Adding a valid character keeps the entry well formed, except adding NUL at position 0. |
| TextEntry.AddNul | clutter/clutter-entry.c:845-852 | Adding NUL anywhere but position 0 leaves the entry well formed. |

Points of the source the model keeps as they are:

- The cross axis of every child's cell is always [0, max(1, cross extent)] (clutter/clutter-box-layout.c:1020-1037). Alignment within the cell is left to `clutter_actor_allocate_align_fill`.
- While an animation runs, `allocate_box_child` does not overwrite `last_allocation` when it interpolates (clutter/clutter-box-layout.c:659-702).
- The placement loop walks the child list from the last child to the first, whatever the pack direction, and reads `sizes[i]` by list position (clutter/clutter-box-layout.c:1039-1120).
- The comment at clutter/clutter-box-layout.c:852 states goal (a), as many children as possible at their natural size. The loop does not meet it (`DistributeNotMaximal`), because it shares the space evenly before filling any child.
- Goal (b) at clutter/clutter-box-layout.c:855-857, continuity, holds: one more unit of space moves each child by at most one unit (`DistributeContinuous`).
- The comment at clutter/clutter-box-layout.c:856-860 promises fairness goal (c). It holds only up to one unit, because the glue rounds up (`DistributeNotExactlyFair`).

## Left out

- Child size queries, `clutter_actor_allocate_align_fill`, `clutter_actor_get_allocation_box`, `clutter_actor_box_interpolate` and `clutter_actor_allocate` are parameters or results. They belong to the actor tree, which is not part of this model.
- The animation progress is a parameter. The timeline, easing curves and the parent `begin_animation` are not part of this model. Only the `is_animating` flag and the easing settings' stored values are kept.
- GObject property dispatch, param specs and `g_object_notify` are not modelled (clutter/clutter-box-layout.c:280-411, 1183-1412; clutter/clutter-entry.c:102-177). They only route to the setters modelled here. The setter and getter wrappers with no logic of their own (`clutter_box_layout_get_spacing` and the like) are the record's fields.
- `clutter_box_layout_set_container` (request-mode change), `get_child_meta_type` and `clutter_box_layout_new` are left out. They are actor plumbing.
- Entry rendering is left out: the Pango layout, paint, colour, alignment, cursor pixel geometry and dispose. Only the cursor index that `ensure_cursor_position` hands to Pango is modelled.
- The entry constructors `clutter_entry_new*` are left out. They only call `set_text` and `set_font_name`.
- Pango's font-description parser is a predicate parameter. The warning it leads to is not modelled.
- `GStr.InsertChar`: each character takes one position. `g_string_insert_unichar` writes the UTF-8 encoding, which is one to four bytes, and `g_utf8_strlen` counts characters. The model keeps to single-byte text, where the two agree.
- `BoxAllocation.Allocate`: takes whole-number extents and whole-number child requests only. For a fractional extent such as 100.5, the source's centring and right-to-left mirror (clutter/clutter-box-layout.c:1139) work on the untruncated float and can give a fractional start such as 0.5. The model cannot represent this.
- `BoxAllocation.Allocate`: `gint` overflow of the extent and size arithmetic is not modelled. Integers are unbounded except for the `guint` spacing products.
- `TextEntry.Add`: `gint` overflow of the cursor is not modelled. Integers are unbounded except for the `guint` spacing products and the unsigned arithmetic of `clutter_entry_remove`.
- `TextEntry.RemoveBeforeCursor`: the remove lemmas assume a text shorter than 2^31 characters. Its length is a `gint` in the source.
- `SlackDistributor.DistributeNearlyFair`: states goal (c) up to one unit rather than exactly. The exact goal is false, and `DistributeNotExactlyFair` gives the input.
- `BoxAllocation.Requestable`: requires integral minimum and natural sizes with 0 <= minimum <= natural. The source aborts through `g_error` otherwise. Its `sizes[]` entries stay `gfloat`, and fractional requests are not modelled.
- `BoxPolicy.Set`: the boolean settings are `bool`, so `gboolean` values other than 0 and 1 are not modelled. `clutter_box_layout_set_use_animations` stores its argument unnormalised into a one-bit field (clutter/clutter-box-layout.c:2089-2091), so 2 is stored as 0. The child setters `box_child_set_fill` and `box_child_set_expand` store the raw `x_fill`, `y_fill` and `expand` arguments (216, 223, 262). `set_vertical`, `set_homogeneous` and `set_pack_start` compare the raw argument with the stored one before normalising it (1524/1528, 1585/1589, 1646/1650). So passing 2 when 1 is stored reports a change and starts a relayout or an animation.
- `SizeAggregator.Measure`: the sums are exact. The source accumulates `gfloat` values (clutter/clutter-box-layout.c:521-545), so rounding can change the sums, and summing in reverse order under right-to-left can give a different result. The model does not represent that rounding.
- `clutter/clutter-scroll-actor.c` and the backend files are outside the modelled core. They are matrix and GPU work, or declarations.

## Findings

| source | as written | input that shows it | evidently intended | confidence | as-written member | corrected member |
|---|---|---|---|---|---|---|
| clutter/clutter-box-layout.c:1040-1120 | The placement loop indexes `sizes[i]` with `i` the child's position in the whole child list. `sizes` holds one entry per visible child, in visible order (filled at 971-975). | A box whose first child is invisible and whose second is visible: `i` = 1 reads past the one-entry array. This happens in a non-homogeneous box, and in a homogeneous box when the visible child does not fill its cell (the centring at 1094/1119). | Read the entry of the child's visible index. | high (not executed) | BoxAllocation.AsWrittenHiddenFirst, BoxAllocation.AsWrittenHiddenFirstHomogeneous | BoxAllocation.AsWrittenAgrees |

`BoxAllocation.AllocateAsWritten` models the loop as written. It returns `None` for an out-of-bounds read. For non-homogeneous boxes, `AsWrittenFails` characterises exactly when that happens. `AsWrittenHiddenFirstHomogeneous` shows the read in a homogeneous box. `BoxAllocation.Allocate` is the corrected allocation, and the rest of the model uses it. `AsWrittenAgrees` proves that the two coincide on every list where the bug cannot show.
