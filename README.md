# Room Arranger 3D — a Dafny model of the room editor's core

Room Arranger 3D is a browser room planner. It lists the `.glb` furniture models found in a
GitHub folder, groups them by category in a side panel, and lets the user place them in a
room, select them by clicking, switch the transform gizmo with W/E/R and delete them. This
project models the logic in `room-arranger.js` that does not depend on three.js geometry or
the DOM, and proves what that logic guarantees.

Modules (one per file):

- `Text` (`text.dfy`): the JavaScript string operations the script relies on, over
  `seq<char>`:
  - `toLowerCase` and `toUpperCase`;
  - the regular-expression class `\w`;
  - `includes` (`Contains`, proved equal to "occurs at some index");
  - `endsWith`;
  - the lexicographic order that stands in for `localeCompare`, proved to be a total order.
- `Naming` (`naming.dfy`): `fileToName`, and the two keyword tables with their first-match
  lookups `nameToIcon` and `nameToCategory`.
  - The lookups are loops (methods) proved equal to a recursive specification function
    `Classify`.
  - `Classify` is proved to return the value of the first matching row, or the default.
  - Earlier rows win. "Nightstand" gets the television icon, because `stand` is in the
    television row.
  - The table's `🕯` row can never be chosen. Every name with one of its keywords
    (`nightstand`, `bedside`) also contains `stand` or `bed`, and earlier rows test those.
- `Catalog` (`catalog.dfy`): the part of `fetchModelsFromGitHub` after the HTTP request.
  - It filters the directory listing down to `.glb` files, builds one model entry per file,
    and sorts by category, then name.
  - The sort is a stable insertion sort. It is proved sorted, a permutation of its input,
    and to keep equal-key entries in their original order.
  - The `Catalog` class holds the global `MODELS`. `FetchModels` leaves it unchanged when
    the request fails or no `.glb` file is listed.
- `ModelList` (`model_list.dfy`): `buildModelItems`.
  - The loop that fills the `groups` dictionary is proved against a specification of the
    kept models and their categories.
  - Proved properties:
    - a model is listed exactly when its name contains the filter;
    - every listed model sits in exactly one group, the one for its category;
    - groups come in order of their category's first appearance;
    - nothing listed gives "No models found".
- `Placement` (`placement.dfy`): the placeholder box.
  - Its dimensions come from a per-category table, with a one-metre cube as the default.
  - Its hue is `(charCodeAt(0) * 37) % 360`. The code unit is the UTF-16 one: an astral
    first character gives its high surrogate, and an empty name gives NaN, modelled as
    `None`.
  - Because 37 is invertible modulo 360, two code units get the same hue exactly when they
    agree modulo 360.
- `Editor` (`editor.dfy`): the class `Editor` holds the globals:
  - `placedObjects`, `selectedObject`, `gizmoMode` and `isOrbitDragging`;
  - the orbit's right- and middle-button flags;
  - `gridVisible` and `wallsVisible`;
  - a counter that hands out fresh scene nodes.

  Its methods are the handlers that change these: selecting, deselecting, adding (a loaded
  model or a placeholder), deleting, the click handler's walk up the parent chain, the key
  handler, the toggles, and mouse down/move/up. Every method keeps the invariant `Valid()`:
  the selection is null or a placed object, and placed objects are distinct nodes.

External inputs become parameters:

- The GitHub directory listing is `Option<seq<DirEntry>>`; `None` covers a failed request,
  a non-OK status and a malformed body.
- The result of a raycast is the first hit node (`Option<NodeId>`) plus whether the floor
  was hit.
- The scene graph is a parent map, with a rank map showing that it has no cycles.
- Whether the glTF loader is ready and whether loading succeeded are booleans.

## Model

| member | source | states |
|---|---|---|
| Text.ContainsIff | room-arranger.js:59 | `includes` holds exactly when the keyword occurs at some index of the string |
| Text.StrLeTotal | room-arranger.js:95 | the name/category order compares any two strings |
| Text.StrLeAntisymmetric | room-arranger.js:95 | two strings ordered both ways are equal |
| Text.StrLeTransitive | room-arranger.js:95 | the order is transitive |
| Text.LowerIdempotent | room-arranger.js:57 | lower-casing a lower-cased string changes nothing |
| Naming.FileToName | room-arranger.js:48-54 | the name is 4 characters shorter exactly when the file ends in `.glb` (any case), otherwise the same length, and contains no `-` or `_` |
| Naming.FileToNameCharacters | room-arranger.js:50-53 | character by character: the `.glb` suffix is gone, `-` and `_` became spaces, letters at word starts are upper-cased, and every other character is kept |
| Naming.FileToNameCapitalizesWords | room-arranger.js:53 | every ASCII letter that starts a word of the name is upper-case |
| Naming.FileToNameIdempotent | room-arranger.js:48-54 | a name that no longer ends in `.glb` is a fixed point of `fileToName` |
| Naming.FileToNameExample | room-arranger.js:49 | `sofa_chair.glb` becomes `Sofa Chair` |
| Naming.Classify | room-arranger.js:58-61 | the value of the first row with a keyword in the lower-cased name; the default when no row matches; never anything but a row value or the default |
| Naming.ClassifyCases | room-arranger.js:58-61 | the lookup returns the default or the value of the first matching row, which exists when any row matches |
| Naming.FirstMatchValue | room-arranger.js:58-59 | the first matching row decides the result |
| Naming.NameToIcon | room-arranger.js:56-62 | the loop over `ICON_MAP` returns what `Classify` specifies, `📦` by default |
| Naming.NameToCategory | room-arranger.js:64-70 | the loop over `CATEGORY_MAP` returns what `Classify` specifies, `Other` by default |
| Naming.CategoryOf | room-arranger.js:39-46 | the category is always one of Seating, Bedroom, Tables, Storage, Bathroom, Decor, Other |
| Naming.ClassifyIgnoresCase | room-arranger.js:57 | icon and category depend only on the lower-cased name |
| Naming.NightstandIcon | room-arranger.js:28-30 | "Nightstand" gets the television icon: its `stand` matches the row on line 28 before the nightstand row |
| Naming.TelevisionRowFirst | room-arranger.js:20-28 | for a ten-letter name over `nightsad` ending in `stand`, the television row is the first match |
| Naming.NightstandCategory | room-arranger.js:40-41 | "Nightstand" is in category Bedroom |
| Naming.NightstandIconUnreachable | room-arranger.js:30 | no name ever gets the `🕯` icon of the nightstand row |
| Naming.NightstandRowShadowed | room-arranger.js:22-30 | a name with `nightstand` or `bedside` matches the bed row or the television row |
| Naming.ContainsPart | room-arranger.js:59 | if a keyword occurs, every part of it occurs |
| Catalog.GlbTestsAgree | room-arranger.js:80 | the listing's `toLowerCase().endsWith('.glb')` test and the `/\.glb$/i` of `fileToName` agree |
| Catalog.GlbFiles | room-arranger.js:80 | an entry is kept exactly when it is a file whose name ends in `.glb` in any case |
| Catalog.ModelLeTotal | room-arranger.js:95 | the comparator orders any two entries |
| Catalog.ModelLeAntisymmetric | room-arranger.js:95 | entries ordered both ways have the same category and name |
| Catalog.ModelLeTransitive | room-arranger.js:95 | the comparator is transitive |
| Catalog.InsertPermutes | room-arranger.js:95 | inserting adds exactly the new entry |
| Catalog.InsertSorted | room-arranger.js:95 | inserting into a sorted list keeps it sorted |
| Catalog.SortModelsSpec | room-arranger.js:95 | the sort's result is sorted by category then name and is a permutation of its input |
| Catalog.InsertTies | room-arranger.js:95 | inserting keeps the order of entries with equal keys |
| Catalog.SortModelsStable | room-arranger.js:95 | entries with equal category and name keep their original order |
| Catalog.CatalogEntriesFromListing | room-arranger.js:85-93 | every entry comes from a listed `.glb` file, and its name, icon and category are derived from that file |
| Catalog.CatalogCoversListing | room-arranger.js:80-93 | every listed `.glb` file has its entry |
| Catalog.CatalogSorted | room-arranger.js:85-95 | the catalog is sorted and is a permutation of the mapped `.glb` files |
| Catalog.Catalog.constructor | room-arranger.js:16 | `MODELS` starts empty |
| Catalog.Catalog.FetchModels | room-arranger.js:78-96 | a failed fetch or a listing without `.glb` files leaves `MODELS` unchanged; otherwise `MODELS` becomes the sorted catalog |
| ModelList.KeptStep | room-arranger.js:495 | one more catalog model is listed exactly when it matches the filter |
| ModelList.CollectStep | room-arranger.js:496-497 | creating the missing group and pushing the model keeps the groups equal to the kept models by category |
| ModelList.CollectedGroups | room-arranger.js:499 | reading the groups back in key order gives the groups of the specification |
| ModelList.BuildModelItems | room-arranger.js:491-506 | the loop's result is the arrangement of the models kept by the filter |
| ModelList.KeptMembers | room-arranger.js:495 | a model is listed exactly when it is in the catalog and its lower-cased name contains the lower-cased filter, or the filter is empty |
| ModelList.EmptyFilterKeepsAll | room-arranger.js:495 | an empty filter lists the whole catalog in order |
| ModelList.OfCategoryMembers | room-arranger.js:496-497 | a category's group holds exactly the listed models of that category |
| ModelList.CategoriesExact | room-arranger.js:496-499 | the group keys are exactly the categories of listed models, each once |
| ModelList.CategoriesInFirstAppearanceOrder | room-arranger.js:499 | groups appear in the order in which their category first appears |
| ModelList.GroupsPartition | room-arranger.js:494-498 | the groups together hold every listed model exactly once |
| ModelList.ArrangeEmpty | room-arranger.js:500-506 | "No models found" is shown exactly when no model is listed |
| ModelList.AbsentCategoryEmpty | room-arranger.js:496 | a category without a group has no listed model |
| ModelList.FirstIndexBound | room-arranger.js:499 | the first model of a category exists exactly when the category has a model |
| ModelList.CollectAppend | room-arranger.js:497 | pushing a model adds it to the groups exactly once when its category is among them |
| ModelList.CollectAll | room-arranger.js:494-498 | the groups of all categories hold exactly the listed models |
| Placement.PlaceholderSize | room-arranger.js:597-598 | every dimension is positive, and a category without a row gets the unit cube |
| Placement.PlaceholderSizes | room-arranger.js:597-598 | the size table row by row; Bathroom and Other get `[1, 1, 1]` |
| Placement.CharCodeAt0 | room-arranger.js:600 | `charCodeAt(0)`: NaN exactly for the empty name; the character itself within the BMP, a high surrogate above it |
| Placement.Hue | room-arranger.js:600 | the hue is NaN exactly for the empty name and otherwise lies in [0, 360) |
| Placement.HueInverse | room-arranger.js:600 | the code unit modulo 360 is recovered from the hue |
| Placement.HueSameIff | room-arranger.js:600 | two code units get the same hue exactly when they agree modulo 360 |
| Placement.HueOfCodePeriodic | room-arranger.js:600 | code units 360 apart get the same hue |
| Editor.WithoutRemovesOne | room-arranger.js:645 | with distinct nodes, the filter drops exactly the selected entry and keeps the rest in order |
| Editor.WithoutAbsent | room-arranger.js:645 | filtering out a node that is not placed changes nothing |
| Editor.WithoutKeepsDistinct | room-arranger.js:645 | after the filter, the placed nodes are still distinct and are the old ones minus the deleted node |
| Editor.PlacedRoot | room-arranger.js:665-667 | the parent walk ends at a placed node or at a node without a parent; it does not move from a placed or parentless node |
| Editor.PlacedRootIsNearest | room-arranger.js:664-667 | the walk ends at the nearest placed ancestor-or-self of the hit, with no placed node below it on the way |
| Editor.KeyCommands | room-arranger.js:787-796 | keys in an INPUT are ignored, w/W, e/E and r/R pick translate, rotate and scale, Delete/Backspace delete, Escape deselects, and no other key does anything |
| Editor.Editor.constructor | room-arranger.js:116-124 | nothing placed or selected, translate mode, not dragging, grid and walls visible |
| Editor.Editor.SelectObject | room-arranger.js:621-622 | the given placed node becomes the selection |
| Editor.Editor.DeselectObject | room-arranger.js:632-633 | the selection becomes null |
| Editor.Editor.Place | room-arranger.js:583-584 | a fresh node is appended to `placedObjects` and selected |
| Editor.Editor.AddPlaceholderBox | room-arranger.js:596-616 | a fresh placeholder with the category's size and the name's hue is appended and selected |
| Editor.Editor.AddModelToScene | room-arranger.js:554-593 | nothing happens while the loader is not ready; otherwise the loaded model, or on failure the placeholder, is appended as a fresh node and selected |
| Editor.Editor.DeleteSelected | room-arranger.js:642-647 | with no selection nothing changes; otherwise exactly the selected entry is removed, the others keep their order, and the selection becomes null |
| Editor.Editor.OnCanvasClick | room-arranger.js:655-677 | right after an orbit drag only the flag is cleared; otherwise the walk's end is selected if it is placed, and a click on the floor alone deselects |
| Editor.Editor.SetGizmoMode | room-arranger.js:778-780 | the gizmo mode becomes the given one |
| Editor.Editor.ToggleGrid | room-arranger.js:743-744 | the grid flag flips |
| Editor.Editor.ToggleWalls | room-arranger.js:748-749 | the walls flag flips |
| Editor.Editor.ToggleTwice | room-arranger.js:743-752 | pressing a toggle twice restores its flag |
| Editor.Editor.OnKeyDown | room-arranger.js:787-796 | W/E/R set the gizmo mode; Delete/Backspace with a selection removes exactly that object from the placed list and clears the selection, and without one changes nothing; Escape deselects; other keys, and any key typed into an input, change nothing |
| Editor.Editor.OnCanvasMouseDown | room-arranger.js:300-305 | the right button starts an orbit and clears the drag flag; the middle button starts a pan |
| Editor.Editor.OnCanvasMouseMove | room-arranger.js:306-314 | during an orbit, a move of more than 2 pixels (sum of absolute deltas) marks a drag |
| Editor.Editor.OnCanvasMouseUp | room-arranger.js:334-337 | both buttons are released and the drag flag is kept |
| Editor.Editor.DragThenClick | room-arranger.js:300-337 | after a right-button orbit drag, the next click (in a browser the next left click, since releasing the right button sends no `click`) only clears the drag flag and leaves the selection alone, whatever it hits |
| Editor.Editor.GizmoDraggingChanged | room-arranger.js:362-366 | the gizmo's `dragging-changed` event releases both orbit buttons |
| Editor.Editor.AddThenDelete | room-arranger.js:642-647 | adding a placeholder and deleting it restores `placedObjects` |
| Editor.Abs | room-arranger.js:310 | `Math.abs` is non-negative and equals the value or its negation |

## Left out

- `app.js`: it only wires three.js controls, the glTF loader and raycasting to pointer
  events.
- Orbit camera math (`updateCameraFromOrbit`, wheel zoom, touch orbit and pinch, the middle
  button pan): these are trigonometry and floating-point deltas. The model keeps only the
  button flags and the drag flag.
- `snapToFloor`, pivot centring, `buildRoom`, the room-apply handler, and the three.js
  material and `hsl(...)` colour: these are geometry and floats. The placeholder keeps only
  its size and hue.
- Raycasting: the first hit and the floor hit are inputs. The scene graph is a parent map,
  and a rank map shows that it has no cycles.
- HTTP, JSON parsing, loader and CDN script loading: the listing, the loader's readiness
  and the load outcome are inputs.
- Asynchronous completion is not modelled: `AddModelToScene` completes the load or the
  error callback at once, so any interleaving of other events before the callback runs is
  not captured.
- DOM work: status messages, the side panel's HTML, `updatePropsPanel`, `bindPropInput`,
  `showModelListMessage`, `transformControls.attach/detach`, `window.onDeselected`.
- The render loop and `onResize`.
- Text.Lower: case mapping is ASCII-only.
  - The `.glb` tests are exact under this, because no other character lower-cases to `.`,
    `g`, `l` or `b`.
  - Keyword matching differs from `toLowerCase` on non-ASCII names. For example, KELVIN
    SIGN lower-cases to `k`.
- Catalog.ModelLe: `localeCompare` is modelled as code-point order. Locale collation
  tables are not available, and the proved properties hold for any total order.
- Catalog.Catalog.FetchModels: the in-place `MODELS.sort` is stated by its result. That
  result is the stable insertion sort `SortModels`; `Array.prototype.sort` has been stable
  since ES2019.
- Placement.PlaceholderSize: keys inherited from `Object.prototype` (for example
  `constructor`) are not modelled. Categories always come from `CategoryOf`, which never
  yields them. The same holds for the `groups` object of `buildModelItems`.
- Editor.Editor.SelectObject: it requires the node to be placed. Every caller in the
  script passes a placed node.
- Editor.Editor.SetGizmoMode: it takes one of the three modes. The gizmo buttons' `data-mode`
  strings are assumed to be `translate`, `rotate` or `scale`.
- Naming.FileToNameIdempotent: it requires the name not to end in `.glb` again (e.g.
  `a.glb.glb`), because a second call would strip that suffix too.
