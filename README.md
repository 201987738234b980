# Dancing-links exact cover, modelled in Dafny

The program solves exact-cover problems with Knuth's Algorithm X over dancing
links (DLX). An instance is a list of item names and a list of choices. Each
choice is a list of item indices. Index 0 is a placeholder, so the items are
1..n. An exact cover is a set of choices that together contain every item
exactly once.

`init_solver` lays the instance out in five integer vectors:

- `llink`/`rlink` form the horizontal ring of item headers, with the root 0.
- `toplen`/`ulink`/`dlink` cover the arena: the root, the headers 1..n, an
  initial spacer n+1, then every choice's element nodes followed by a spacer.
- Each element's `toplen` is its item. The initial spacer n+1 has `toplen`
  0, since it precedes every choice; every later spacer's `toplen` is minus
  the number (counted from 1) of the choice it closes. A header's `toplen` is the number of nodes still in its
  column.

`solve` runs the search with minimum-remaining-values item selection. The
primitives `cover`/`hide`/`uncover`/`unhide` take nodes out of their rings
and put them back. At the end, every committed node is mapped to its choice
number.

## How the model is built

- **`Layouts` (layout.dfy)** holds the static arena: `L.n` items and the
  `top` vector of the built instance. It also defines the scans that find the
  nearest node of a column (`NextIn`, `PrevIn`, `CountFrom`) and of the
  header ring (`RNext`, `LPrev`).
- **`Render` (render.dfy)** defines the five vectors as functions of the
  arena and two stacks:
  - `covered`: the items taken out of the header ring;
  - `hidden`: the element nodes taken out of their columns.

  A removed node keeps the links it had when it was removed, as in the
  source. The lemmas `RemoveNode`/`RestoreNode` and
  `RemoveHeader`/`RestoreHeader` show that one unlink or relink by the
  source's assignments turns one rendering into the next.
- **`History` (history.dfy)** gives the hidden stack that covering a list of
  items produces (`HiddenOf`), and the loop states of `cover`/`uncover`.
- **`Problems` (problem.dfy)** holds the instance, its arena (`Arena`) and the
  definition of an exact cover (`IsExactCover`).
- **`Search` (search.dfy)** gives the committed stack, the read-out of choice
  numbers, the termination measure of the search, and the proof that a
  finished search is an exact cover.
- **`Building` (build.dfy)** is `init_solver`: the row loop, the header loop
  and the two dlink passes, proved to produce the rendering with nothing
  covered.
- **`Dlx` (solver.dfy)** is the solver as a class. Its five arrays are the
  source's vectors, and its methods are the source's functions, loop for loop.
  `Valid()` says every array equals its rendering. `Settled()` adds that
  `hidden` is exactly what covering `covered` in order hides.

## Model

| member | source | states |
|---|---|---|
| Dlx.Solver.constructor | src/main.rs:83-136 | init_solver builds a solver whose arena is the instance's layout, with nothing covered or hidden and every array equal to its rendering, so the rings are exactly those of the instance (with the dlink passes corrected, see Findings); all five arrays are freshly allocated |
| Dlx.SolveInstance | src/main.rs:20-22 | init_solver followed by solve: unless the search gives up, the returned choice numbers are an exact cover of the instance; on giving up none is returned, so whatever it returns is empty or an exact cover |
| Building.HeaderRing | src/main.rs:87-91 | llink is [n, 0, .., n-1] and rlink is [1, .., n, 0], which is the header ring of the rendering with no item covered |
| Building.RingsAtStart | src/main.rs:87-91 | with nothing covered, every header's left link is its predecessor and its right link its successor in the cyclic order 0..n |
| Building.LayOut | src/main.rs:93-109 | after the row loop, for every non-header node toplen is its arena entry and ulink is the node above it; every header's toplen counts its column and prev maps each item to the last node of its column |
| Building.LayChoice | src/main.rs:97-109 | one row of the loop lays choice r out at its start index and leaves count at the start of choice r+1, with the layout invariant kept |
| Building.LayRow | src/main.rs:98-108 | the pushes of one row keep the layout invariant, ending one past the choice's spacer |
| Building.LaidElement | src/main.rs:99-104 | pushing an element node adds one to its item's count, gives the node the column's last node as its ulink, and makes it the column's new last node |
| Building.LaidSpacer | src/main.rs:106-108 | pushing a spacer with toplen -(r+1) and ulink first_item keeps the invariant: first_item is the spacer's rendered ulink |
| Building.SpacerUp | src/main.rs:106-107 | a spacer's ulink is the first node of the option it closes, or the spacer itself after an empty option |
| Building.CloseColumns | src/main.rs:111-113 | once every header's ulink is the last node of its column, toplen and ulink equal the renderings with nothing hidden |
| Building.LaidRendered | src/main.rs:111-113 | a finished layout together with the header ulinks is exactly the rendered toplen and ulink |
| Building.ColumnRings | src/main.rs:93-126 | the row loop, header loop and dlink passes produce three distinct fresh arrays equal to the rendered toplen, ulink and dlink of the instance |
| Building.LinkDown | src/main.rs:114-126 | the corrected dlink passes produce exactly the rendered dlink: every column ring is closed, and every spacer and the root point at the right node |
| Building.LinkColumns | src/main.rs:114-119 | after the first pass, every column node's dlink is its successor in the column ring, and every other entry is still 0 |
| Building.LinkSpacers | src/main.rs:120-126 | after the right-to-left pass, the root and every spacer get the node before the next spacer (the root when none is left), and no column entry changes |
| Building.GapStep | src/main.rs:120-126 | the pass pointer moves to j-1 exactly at a spacer; a spacer's rendered dlink is the pointer; the root's dlink is n |
| Building.UpThenDown | src/main.rs:115-119 | in a freshly built column ring, the node below the node above j is j |
| Building.DownThenUp | src/main.rs:115-119 | in a freshly built column ring, the node above the node below k is k |
| Building.DownOnce | src/main.rs:115-119 | only the node above i has i below it, so the first pass writes each entry at most once |
| Building.FirstPassAsWritten | src/main.rs:115-119 | the first dlink pass literally: every node with toplen > 0 becomes the dlink of its ulink, so a header with toplen 0 is skipped (its contract states only the length; what it computes is stated by Building.FirstPassAgrees and Building.EmptyColumnAsWritten) |
| Building.SecondPassAsWritten | src/main.rs:120-126 | the second dlink pass literally: right to left, every node with toplen <= 0 takes the pointer, which then becomes the index before it (its contract states only the length; see Building.SecondPassAgrees) |
| Building.DownLinksAsWritten | src/main.rs:114-126 | the two passes as written, composed on a zeroed dlink vector (its contract states only the length; see Building.DownLinksAgree) |
| Building.FirstPassAgrees | src/main.rs:115-119 | when no header has toplen 0, the first pass as written gives every column node its rendered dlink and leaves the root and the spacers at 0 |
| Building.SecondPassAgrees | src/main.rs:120-126 | when no header has toplen 0, the second pass as written, moving the pointer to i-1 at every spacer, completes the rendered dlink vector |
| Building.DownLinksAgree | src/main.rs:114-126 | when no column is empty, the passes as written give exactly the rendered dlink vector |
| Building.PassesAsWrittenAgree | src/main.rs:114-126 | for a well-formed instance in which every item occurs in some choice, init_solver's dlink passes as written build the rendered dlink vector, so the defect of the Finding shows only on an item no choice names |
| Building.EmptyColumnAsWritten | src/main.rs:114-126 | for items a, b and the one choice {b}, the dlink passes as written give header a the dlink 2, while its empty column calls for 1 |
| Building.TinyPasses | src/main.rs:114-126 | the passes as written turn toplen [0,0,1,0,2,-1] and ulink [0,1,4,0,2,4] into dlink [0,2,4,4,2,0] |
| Building.TinyRender | src/main.rs:83-126 | the rendered vectors of that instance: toplen [0,0,1,0,2,-1], ulink [0,1,4,0,2,4], dlink [2,1,4,4,2,0] |
| Building.TinyArena | src/main.rs:94-109 | that instance is well formed and lays out as top [0,0,0,0,2,-1] |
| Problems.ArenaWF | src/main.rs:97-109 | the layout of a well-formed instance has items in range, zero headers, a final spacer, and distinct items within each option |
| Problems.ArenaOption | src/main.rs:97-109 | every element node lies in the option of some choice r: that option starts at r's start index, holds r's items in order and is closed by a spacer with toplen -(r+1) |
| Problems.ArenaDistinct | src/main.rs:97-109 | two element nodes of one option carry different items (given distinct items per choice) |
| Problems.ArenaBlock | src/main.rs:97-109 | choice r is laid out right after the previous spacer, followed by its marker -(r+1) |
| Render.RemoveNode | src/main.rs:243-245 | unlinking element q (dlink[u] := d, ulink[d] := u) turns the rendering for hid into the rendering for hid + [q] |
| Render.RestoreNode | src/main.rs:273-275 | relinking q with the links it kept (dlink[u] := q, ulink[d] := q, count + 1) turns the rendering for hid + [q] back into the one for hid |
| Render.RemoveHeader | src/main.rs:227-230 | unlinking header i from the header ring turns the ring rendering for cs into the one for cs + [i], and i keeps its links |
| Render.RestoreHeader | src/main.rs:252-255 | relinking header i through its kept links restores the ring rendering for cs |
| Render.HeaderNeighbours | src/main.rs:227-230 | an uncovered header's left neighbour links right to it and its right neighbour links left to it |
| Render.NeighboursOf | src/main.rs:236-238 | a linked element's up and down links are the nearest linked nodes of its column on each side, or its header |
| Render.DownAt | src/main.rs:243 | after unlinking q, only the node above q gets a new down link, namely q's down link |
| Render.UpAt | src/main.rs:244 | after unlinking q, only the node below q gets a new up link, namely q's up link |
| Render.LenAt | src/main.rs:245 | after unlinking q, only the count of q's item changes, by minus one |
| Render.RLinkAt | src/main.rs:229 | after covering i, only i's left neighbour gets a new right link, namely i's right link |
| Render.LLinkAt | src/main.rs:230 | after covering i, only i's right neighbour gets a new left link, namely i's left link |
| History.HideSeqIn | src/main.rs:233-249 | hide(p) removes exactly the nodes of p's option other than p |
| History.HiddenOfAppend | src/main.rs:221-231 | covering one more item adds exactly the option nodes cover hides for it to the hidden stack |
| History.HiddenOfClosed | src/main.rs:221-231 | after covering distinct items, the hidden stack holds only element nodes, and every node still linked into an uncovered column belongs to an option with no hidden node and no covered item |
| History.CoverPushesOrigin | src/main.rs:222-226 | every node cover(i) hides lies in an option through column i and is not in column i |
| History.CoverPushesHas | src/main.rs:222-226 | every other node of an option still linked into column i is hidden by cover(i) |
| Dlx.Solver.UnlinkNode | src/main.rs:243-245 | the three assignments in hide's loop push q on the hidden stack and keep every array equal to its rendering |
| Dlx.Solver.RelinkNode | src/main.rs:273-275 | the three assignments in unhide's loop pop q off the hidden stack and keep every array equal to its rendering |
| Dlx.Solver.Hide | src/main.rs:233-249 | hide(p) pushes exactly p's other option nodes, in walk order, on the hidden stack |
| Dlx.Solver.Unhide | src/main.rs:263-279 | unhide(p) pops exactly what hide(p) pushed |
| Dlx.Solver.UnhideOne | src/main.rs:264-277 | one turn of unhide's loop: at a spacer the cursor jumps to the last node of the option, at an element the node is relinked and popped off the hidden stack and the cursor moves up; the remaining walk gets shorter |
| Dlx.Solver.UnlinkItem | src/main.rs:227-230 | unlinking header i pushes i on the covered stack |
| Dlx.Solver.RelinkItem | src/main.rs:252-255 | relinking header i pops it off the covered stack |
| Dlx.Solver.HideColumn | src/main.rs:222-226 | cover's loop hides every option through column i, top to bottom |
| Dlx.Solver.Cover | src/main.rs:221-231 | cover(i) pushes i on the covered stack and leaves the state settled |
| Dlx.Solver.UnhideColumn | src/main.rs:256-260 | uncover's loop unhides the options of column i bottom to top, undoing HideColumn |
| Dlx.Solver.UnhideAbove | src/main.rs:257-259 | one turn of uncover's loop keeps the loop state and moves to the node above |
| Dlx.Solver.Uncover | src/main.rs:251-261 | uncover of the last covered item pops it and leaves the state settled |
| Dlx.Solver.CoverUncover | src/main.rs:221-261 | cover(i) followed by uncover(i) puts all five link vectors back as they were |
| Dlx.Solver.SelectItem | src/main.rs:150-159 | the chosen item is uncovered, has the fewest nodes of all uncovered items, and is the first such item in ring order |
| Render.RightOf | src/main.rs:158 | following rlink from a live header skips exactly the covered items before the next live one, and returns to the root when none is left |
| Dlx.Solver.CoverOthers | src/main.rs:197-208 | committing to node x covers the other items of x's option, in walk order (right of x, wrapping round) |
| Dlx.Solver.CommitAt | src/main.rs:199-207 | one turn of that walk covers the item of the node or wraps at the spacer |
| Dlx.Solver.UncoverOthers | src/main.rs:178-189 | un-committing x uncovers those items in reverse order and restores the covered stack |
| Dlx.Solver.UncommitAt | src/main.rs:180-188 | one turn of that walk uncovers the item of the node or wraps at the spacer |
| Dlx.Solver.SpacerFrom | src/main.rs:213-215 | the read-out scan from an element node stops at its option's spacer, whose toplen is minus the option's number |
| Dlx.Solver.ReadOptions | src/main.rs:212-218 | the read-out returns, for each of the l committed nodes, the number of the choice the node belongs to |
| Dlx.Solver.Choose | src/main.rs:149-163 | X3-X4: covering the selected item and taking its first node (or the header) as the node to try lowers the search measure |
| Dlx.Solver.FirstToTry | src/main.rs:163 | x[l] := dlink[i] after cover(i) is the header i itself or a node of column i that is still linked and whose column is not covered |
| Dlx.Solver.Retreat | src/main.rs:176-191 | X6: going back one level uncovers the committed option and moves to the next node of the item chosen there |
| Dlx.Solver.NextToTry | src/main.rs:190-191 | after the un-commit, i is the item of the level's node and x[l] moves to the node below it: the header i, or a later fresh node of column i |
| Search.FirstCandidate | src/main.rs:162-163 | after cover(i), the dlink of header i is i itself or a fresh node of column i |
| Search.NextCandidate | src/main.rs:190-191 | after cover(i), the dlink of a fresh node y of column i is i or a later fresh node of column i |
| Dlx.Solver.Backtrack | src/main.rs:166-194 | X5-X8: gives up at level 0 with nothing covered, or stops at a fresh node, below the measure where it started |
| Dlx.Solver.Commit | src/main.rs:197-209 | committing to the node to try extends the committed stack and covers all of its option's items |
| Dlx.Solver.Descend | src/main.rs:149-194 | X3-X8 of one round: gives up with nothing covered, or leaves a fresh node to commit to, below the starting measure |
| Dlx.Solver.Advance | src/main.rs:147-209 | one round of the loop gives up, or ends with a longer or later committed stack, below the starting measure |
| Dlx.Solver.AllCovered | src/main.rs:147 | when the header ring is empty, every item is covered |
| Dlx.Solver.Search | src/main.rs:140-210 | the search terminates; it gives up with nothing covered, or stops with every item covered by the options of the committed nodes |
| Dlx.Solver.Solve | src/main.rs:140-218 | when the search does not give up, the returned choice numbers form an exact cover of the instance, in commit order; when it gives up, it returns no choice |
| Search.StackSolves | src/main.rs:147-218 | the options of a committed stack that covers every item, each once, form an exact cover |
| Search.OptionsCover | src/main.rs:212-218 | the read-out numbers are valid choice numbers, and their items are exactly the items the committed options cover |
| Search.ColsChoice | src/main.rs:197-208 | the items an option's walk covers are its choice's items |
| Search.MissingItem | src/main.rs:147-159 | while an item is uncovered, fewer than n items are covered, so the level stays below N |
| Search.MeasurePush | src/main.rs:197-209 | descending a level lowers the search measure |
| Search.MeasureRetreat | src/main.rs:176-191 | going back a level to a later node lowers the search measure |
| Search.MeasureLess | src/main.rs:140-210 | a stack that agrees with another below level k and has a smaller digit at level k has a smaller measure: the search measure is the lexicographic order of the stacks |

## Left out

- main, Sudoku::read and Sudoku::read_exact_cover (file I/O, regex parsing, grid printing) are not modelled; they lie outside the solver.
- The Sudoku encoder sudoku_to_exact_cover (src/main.rs:282-335) is not modelled. The choices it generates (src/main.rs:283-316) use the map only through `exclude.contains_key`; only the order and numbering of the items it builds from the map's keys (src/main.rs:317-325) depend on HashMap iteration order, which is unspecified; the string formatting is out of scope.
- The println! calls (for example at src/main.rs:172) are left out. They are output only.
- The unused fields `name` and `ec`, and the `name2idx` map at src/main.rs:85, are left out. No computation reads them.
- The `prev` HashMap is modelled as a sequence indexed by item, which holds the same entries.
- The link vectors are i32 in the source, and the source casts with `as i32`/`as usize` throughout, for example at src/main.rs:84, 101-103, 106, 112, 117, 123-124, 151 and 218. The model uses unbounded integers: overflow needs more than 2^31 nodes.
- Problems.WellFormed: the instance must have at least the root item (|items| >= 1). With an empty item list the source computes `(e.items.len() - 1) as i32` at src/main.rs:84, which underflows usize: a debug build panics and a release build wraps to -1.
- Problems.WellFormed: a choice must name items in 1..n. An item above n makes the source panic at src/main.rs:100-102 (index out of bounds, or a key missing from prev). An item 0 is accepted by the source and counted into the root; the model does not cover that case.
- Problems.WellFormed: a choice must not name an item twice. The source does not check this; a repeated item would hide one node twice and corrupt the column rings.
- Dlx.Solver.Solve: completeness is not proved. When the search gives up, the contract says that no choice is returned and every item is uncovered again. It does not say that the instance then has no exact cover.
- Dlx.Solver.ReadOptions: the entries of x beyond l are rewritten too, as in the source, but their values are not stated; the source discards them.
- Dlx.Solver.constructor: it builds the dlink vector with the corrected passes (see Findings), not with the passes as written.

## Findings

| source | as written | input that shows it | evidently intended | confidence | as-written member | corrected member |
|---|---|---|---|---|---|---|
| src/main.rs:114-126 | The first dlink pass only handles nodes with a positive toplen. An item that no choice names has toplen 0, so its header is skipped, and the right-to-left pass then gives the header the pointer meant for the spacers. | items ["", "a", "b"] and one choice [2]: header 1 gets dlink 2 where its empty ring needs 1. solve then selects item 1 (count 0), and cover(1) calls hide on header 2, whose walk reaches ulink 0 at the initial spacer and stays at the root forever | headers always take part in the first pass, and only the root and the spacers get the pointer. The passes as written are right whenever every item occurs in some choice (Building.PassesAsWrittenAgree) | not executed | Building.EmptyColumnAsWritten | Building.LinkDown |
