# ojae core: entity-component system and text layout

This project models two stateful parts of the ojae terminal-style game engine in Dafny and proves what they do.

**The entity-component system** (`include/ojae/ECS.h`) has three parts:

- **Component-type registry.** A process-wide counter hands out a type id on each type's first use. After that, the type keeps its id.
- **Entity.** Each entity has:
  - a name;
  - an ordered tag list;
  - a 32-slot component array indexed by type id;
  - a presence bitset beside the array;
  - the list of every component ever added, in the order added, which `update()` walks.
- **Entity handler.** It keeps a map from grid cell `(x, y)` to the entities on that cell. Each frame it updates them cell by cell, in ascending `(x, y)` order.

**The text renderer's layout logic** (`src/TextRenderer.cpp`) works like this:

- A cursor places characters on a pixel grid. It wraps at the right edge, and a newline moves it to the next row.
- Every placed character records its expiry tick. A per-frame update erases the expired characters.
- The renderer tracks three pixel rows:
  - `largest_y`: the largest offset `row * font * 1.5` of the cursor's row reached by `add`, measured from `start_y`. A newline raises it too, although it places nothing on that row.
  - `display_start`: the first visible pixel row.
  - `smallest_y`: set by `update()` to the smallest of two things: the y of the first character before pruning, even if that character is then erased, and the y of every character that survives.

Modules:

- `Sequences`: erasing the first match from a list, used by `remove_tag` and `remove_entity`, and erasing at an index, used by the renderer's erase loop.
- `Grid`: the order of `std::pair<int, int>`, the sweep order of a `std::map` keyed by it, and what appending to or erasing from one cell does to that sweep.
- `ECS`: `ComponentRegistry`, `Component`, `Entity` and `EntityHandler` as classes with the source's fields.
  - Component types are named by strings.
  - A call of a component's or entity's `update()` is recorded by appending it to a trace, because the component bodies are user code.
- `TextLayout`: the class `TextRenderer` and the pure functions that specify it.
  - The functions are `CursorSet`, `CharAdded`, `StringAdded`, `Updated` and `Cleared`, each over a `Layout` and a `TextState`.
  - Each method's postcondition ties its new state to one of these functions.
  - The clock is a parameter: `now` for one character, and one tick per character for a string.

The code is modelled as written, quirks included:

- `set_cursor_pos` checks `y` against `end_x`.
- `add('\n')` moves the row down before the guard decides whether the column returns to 0.
- `move_up_amount` is computed after `display_start` was overwritten, so it is always 0.
- `smallest_y` is seeded from the first character before pruning, even when that character has expired.
- A second `addComponent` of the same type overwrites the slot, and the old instance stays in `components`.
- `remove_entity` creates an empty list at a cell that had none.

The code has no safeguards beyond these, and the model adds none:

- Nothing checks the number of component types against 32. The model requires a type's id to be below 32 wherever the source indexes the array or the bitset with it.
- Re-adding a component type is not rejected, so an entity can hold more than one instance of a type.
- An entity listed twice in a cell is updated twice.

There is one registry for the whole process. Each entity's slots and bits agree with it (`ECS.Entity.Typed`):

- a set bit `i` holds a component whose type has id `i`;
- the type of every component ever added has its bit set.

Every operation that looks up or hands out an id keeps this agreement. It is what makes `hasComponent<T>` mean "a `T` was added", and what makes `getComponent<T>` return a `T`.

## Model

| member | source | states |
|---|---|---|
| ECS.ComponentRegistry.constructor | include/ojae/ECS.h:22 | the counter starts at 0 and no type has an id yet |
| ECS.ComponentRegistry.NextID | include/ojae/ECS.h:20-24 | returns the counter's old value and increments it by one |
| ECS.ComponentRegistry.IdOf | include/ojae/ECS.h:26-30 | the id a type has, or the counter value its first use will give it |
| ECS.ComponentRegistry.TypeID | include/ojae/ECS.h:26-30 | a known type gets its stored id back and nothing changes; a new type gets the counter value, which no other type holds, and the counter moves on; ids stay distinct and below the counter |
| ECS.Component.constructor | include/ojae/ECS.h:37-43 | a new component of the given type |
| ECS.Entity.constructor | include/ojae/ECS.h:73-76 | a named entity with no tags, no components, 32 slots and every presence bit clear |
| ECS.Entity.Default | include/ojae/ECS.h:71 | the unnamed entity: empty name, no tags, no components, every presence bit clear |
| ECS.Entity.Update | include/ojae/ECS.h:82-86 | `update()` is called on every element of `components` exactly once, in insertion order |
| ECS.Entity.AddTag | include/ojae/ECS.h:88-91 | the tag is appended at the end of the list |
| ECS.Entity.RemoveTag | include/ojae/ECS.h:93-105 | returns true exactly when the tag was present; only the first equal tag is erased and the others keep their order; with no match the list is unchanged |
| ECS.Entity.HasComponent | include/ojae/ECS.h:107-110 | the result is the presence bit at the type's id, which is set exactly when a component of that type was added to this entity; the registry lookup is the only change, and the stores still agree with the registry |
| ECS.Entity.AddComponent | include/ojae/ECS.h:112-124 | a new instance owned by this entity is appended to `components` and written to slot and bit `typeID<T>` only; every other slot and bit is unchanged; the entity stays consistent (a set bit means its slot holds one of its components) and its stores still agree with the registry |
| ECS.Entity.GetComponent | include/ojae/ECS.h:126-129 | returns the slot at the type's id; whenever the bit is set, that is one of this entity's components and its type is the requested one, which is what the `static_cast<T*>` relies on |
| ECS.TypedStoresGrow | include/ojae/ECS.h:26-30 | the registry only ever adds ids, so an entity whose stores agree with it keeps agreeing after any lookup |
| ECS.TypedStoresAdd | include/ojae/ECS.h:115-120 | storing a new component in slot and bit `typeID<T>` keeps the stores in agreement with the registry, which now knows `T` |
| ECS.AddedComponentIsFound | include/ojae/ECS.h:107-129 | after `addComponent<T>`, `hasComponent<T>` is true and `getComponent<T>` returns that very instance, whose back-reference is this entity |
| ECS.ReAddedComponentStillUpdated | include/ojae/ECS.h:82-86 | after two `addComponent<T>`, the slot holds the second instance while `update()` still calls both, the older one first |
| ECS.UpdateCell | include/ojae/ECS.h:154 | the entities of one cell are updated front to back, each occurrence once |
| ECS.SweepStep | include/ojae/ECS.h:151-155 | the next cell of the sweep is the smallest key left, and its entities follow those already updated |
| ECS.EntityHandler.constructor | include/ojae/ECS.h:145 | the index starts empty |
| ECS.EntityHandler.Update | include/ojae/ECS.h:149-156 | the calls are the entities of every cell, cells in ascending `(x, y)` order and each cell front to back |
| ECS.EntityHandler.GetEntityPositions | include/ojae/ECS.h:158-161 | returns the whole index by value |
| ECS.EntityHandler.AddEntity | include/ojae/ECS.h:163-168 | the entity's handler becomes this one; the entity is appended to the list at `(x, y)` and every other cell is unchanged |
| ECS.EntityHandler.RemoveEntity | include/ojae/ECS.h:170-183 | returns true exactly when the entity was in the cell; only its first occurrence is erased and the rest keep their order; an absent cell becomes an empty list |
| Sequences.RemoveFirst | include/ojae/ECS.h:95-104 | the erase leaves the list unchanged when nothing matches, and otherwise takes exactly one copy of the element out |
| Sequences.RemoveFirstAt | include/ojae/ECS.h:95-100 | erasing at the first matching index is the same as erasing the first match |
| Grid.Before | include/ojae/ECS.h:138 | the order of `std::pair<int, int>` keys: by `x`, then by `y` |
| Grid.Cell | include/ojae/ECS.h:167-173 | the list at a cell, or the empty list `operator[]` creates there |
| Grid.Appended | include/ojae/ECS.h:167 | `add_entity`'s change: the key `(x, y)` now exists and its list gains `e` at the end |
| Grid.Removed | include/ojae/ECS.h:170-183 | `remove_entity`'s change: the key `(x, y)` now exists and its list loses the first `e`, if there is one |
| Grid.OtherCellsKept | include/ojae/ECS.h:163-183 | adding or removing at one cell leaves every other cell's list as it was |
| Grid.SortedKeys | include/ojae/ECS.h:151-152 | the keys in the order the map's iterator visits them: the smallest first, then the rest |
| Grid.Sweep | include/ojae/ECS.h:149-156 | the entities of every cell, cells in key order and each cell front to back |
| Grid.LeastExists | include/ojae/ECS.h:151-152 | every non-empty set of cells has a smallest one in `std::pair` order, so the sweep always has a next cell |
| Grid.LeastUnique | include/ojae/ECS.h:151-152 | the smallest cell is unique |
| Grid.SortedKeysOrdered | include/ojae/ECS.h:151-152 | the sweep visits every key exactly once, in strictly ascending `(x, y)` order |
| Grid.SortedKeysStep | include/ojae/ECS.h:151-152 | after the keys already visited, the sweep goes on with the smallest key left |
| Grid.VisitsAppend | include/ojae/ECS.h:151-155 | sweeping two runs of keys gives the entities of the first run, then those of the second |
| Grid.SweepHoldsOccupants | include/ojae/ECS.h:149-156 | every occurrence of an entity in the index is updated exactly once per sweep |
| Grid.OccupantsAgree | include/ojae/ECS.h:149-156 | the occupants of a set of cells depend only on the lists at those cells |
| Grid.OccupantsSplit | include/ojae/ECS.h:149-156 | the occupants of any one cell can be counted first, so the count does not depend on the order |
| Grid.SweepAfterStore | include/ojae/ECS.h:167 | storing a list at a cell changes the swept entities by exactly that cell's old list out and the new one in |
| Grid.SweepAfterAppend | include/ojae/ECS.h:163-168 | after `add_entity`, the sweep meets the entity once more and everything else as often as before |
| Grid.SweepAfterRemoval | include/ojae/ECS.h:170-183 | after `remove_entity`, the sweep meets the entity once less if it was in the cell, and otherwise the same entities as before |
| Grid.AddThenRemove | include/ojae/ECS.h:163-183 | adding an entity that was not in a cell and removing it again restores the cell's list, and a second removal finds nothing |
| TextLayout.TruncHalf | src/TextRenderer.cpp:147 | halving rounds toward zero, as the conversion from `double` to `int` does |
| TextLayout.RowOffset | src/TextRenderer.cpp:172-174 | `row * font * 1.5` truncated to an integer |
| TextLayout.InBounds | src/TextRenderer.cpp:221-227 | the guard of `set_cursor_pos`: both coordinates lie in `0 .. end_x - font` |
| TextLayout.GlyphY | src/TextRenderer.cpp:146-156 | the y of a character on a row: `start_y + row * font * 1.5` truncated toward zero |
| TextLayout.GlyphYFromRowOffset | src/TextRenderer.cpp:146-174 | where the sum is not negative, a character's y is `start_y` plus the row's offset as `largest_y` measures it |
| TextLayout.Expiry | src/TextRenderer.cpp:142-157 | the expiry stored with a character: -1 without a time limit, otherwise the tick plus the limit |
| TextLayout.NextLine | src/TextRenderer.cpp:138-168 | `set_cursor_pos(0, cursor_pos.second += 1)`: the row moves down first, then the guard decides about the column |
| TextLayout.Placed | src/TextRenderer.cpp:133-169 | `add(char)` up to the `CALCULATE_LARGEST_Y` label: the newline case, or the placement, the column step and the wrap |
| TextLayout.LargestTracked | src/TextRenderer.cpp:171-180 | `add(char)` from the label on: `largest_y` and `display_start` follow the cursor's row |
| TextLayout.CursorSet | src/TextRenderer.cpp:212-232 | the cursor moves to `(x, y)` exactly when `0 <= x <= end_x - font` and `0 <= y <= end_x - font`, and otherwise stays |
| TextLayout.CharAdded | src/TextRenderer.cpp:133-182 | a newline places nothing, always moves the row down and returns the column to 0 only when the guard accepts; any other character is placed at `(start_x + col * font, start_y + row * font * 1.5)` with expiry -1 or `now + time_limit`, then the column advances and wraps at the right edge; `largest_y` never decreases and `display_start` follows it only when `largest_y - (end_y - start_y) >= 0` |
| TextLayout.Printed | src/TextRenderer.cpp:127-131 | the characters of a string that are placed: none is a newline and there are no more than in the string |
| TextLayout.Chars | src/TextRenderer.cpp:144-157 | the placed characters' text has one character per placed entry |
| TextLayout.CharsAt | src/TextRenderer.cpp:144-157 | the i-th character of that text is the i-th entry's character |
| TextLayout.StringAdded | src/TextRenderer.cpp:118-131 | `add(string)` never lowers `largest_y` or the row and keeps `smallest_y`; it places exactly one entry per non-newline character |
| TextLayout.StringAddedPlaces | src/TextRenderer.cpp:118-131 | the entries already placed stay, and are followed by exactly the non-newline characters of the string, in order |
| TextLayout.StringAddedConcat | src/TextRenderer.cpp:127-131 | adding `s + t` is adding `s`, then `t` |
| TextLayout.StringAddedSnoc | src/TextRenderer.cpp:127-131 | adding one more character after a string is one more `add(char)` |
| TextLayout.ColumnNeverResetsPastGuard | src/TextRenderer.cpp:165-169 | once the row is past the `end_x - font` guard, neither wraps nor newlines bring the column back to 0 |
| TextLayout.Survivors | src/TextRenderer.cpp:87-95 | the erase loop keeps no more entries than it had |
| TextLayout.SurvivorsCount | src/TextRenderer.cpp:87-95 | every entry that has not expired is kept as often as it occurs, and every entry with `expiry <= now` is dropped |
| TextLayout.SurvivorsStep | src/TextRenderer.cpp:87-95 | one more entry is kept exactly when it has not expired |
| TextLayout.SurvivorsMembers | src/TextRenderer.cpp:87-95 | an entry survives exactly when it was there and has not expired |
| TextLayout.SurvivorsAppend | src/TextRenderer.cpp:87-95 | pruning works piecewise, so the survivors keep their relative order |
| TextLayout.SurvivorsLater | src/TextRenderer.cpp:87-95 | pruning at a tick and again at a later one is pruning at the later one; a second pruning at the same tick removes nothing |
| TextLayout.FirstY | src/TextRenderer.cpp:74-82 | the seed of `smallest_y`: the first character's y before pruning, or 0 when there is none |
| TextLayout.LowestY | src/TextRenderer.cpp:96-99 | the smallest of the seed and every given character's y |
| TextLayout.LowestYStep | src/TextRenderer.cpp:96-99 | one more survivor lowers `smallest_y` exactly when its y is smaller |
| TextLayout.LowestYBounds | src/TextRenderer.cpp:74-99 | `smallest_y` is at most the seed and every survivor's y, and equals one of them |
| TextLayout.Updated | src/TextRenderer.cpp:59-116 | with `time_limit == -1` nothing changes; otherwise exactly the unexpired entries stay, in order; `smallest_y` is the minimum of the first entry's y before pruning and every survivor's y; `display_start` becomes the larger of itself and `smallest_y`; the cursor, `largest_y` and the survivors' positions are not shifted |
| TextLayout.FreshCharLifetime | src/TextRenderer.cpp:153-157 | a character added at tick `now` survives an update at tick `later` exactly when `later < now + time_limit` |
| TextLayout.Cleared | src/TextRenderer.cpp:184-193 | no entries and `largest_y == 0`; the cursor goes to `(0, 0)` only when the guard accepts it (`font <= end_x`); `smallest_y` and `display_start` stay |
| TextLayout.TextRenderer.Default | src/TextRenderer.cpp:7-19 | no fonts, font 0, every bound, the cursor and every row 0 |
| TextLayout.TextRenderer.constructor | src/TextRenderer.cpp:21-39 | the one available font is 16 and the current font is 16; the bounds and time limit are the arguments; the cursor, the entries and the rows start empty or 0 |
| TextLayout.TextRenderer.CheckFont | src/TextRenderer.cpp:47-57 | true exactly when the size is one of the available fonts |
| TextLayout.TextRenderer.SetFont | src/TextRenderer.cpp:195-210 | the font changes to the new size exactly when that size is available |
| TextLayout.TextRenderer.SetCursorPos | src/TextRenderer.cpp:212-232 | the new state is `CursorSet` of the old one |
| TextLayout.TextRenderer.AddChar | src/TextRenderer.cpp:133-182 | the new state is `CharAdded` of the old one |
| TextLayout.TextRenderer.AddString | src/TextRenderer.cpp:118-131 | the new state is `StringAdded` of the old one: `add(char)` on each character in order |
| TextLayout.TextRenderer.Clear | src/TextRenderer.cpp:184-193 | the new state is `Cleared` of the old one |
| Sequences.EraseAfter | src/TextRenderer.cpp:91 | erasing the element at index `|k|` of `k + [x] + t` leaves `k + t` |
| TextLayout.TextRenderer.EraseExpired | src/TextRenderer.cpp:72-100 | the in-place erase loop with its `i -= 1` step leaves exactly the survivors, in order, and the smallest y of the seed and the survivors |
| TextLayout.TextRenderer.Update | src/TextRenderer.cpp:59-116 | the new state is `Updated` of the old one |

## Left out

- Drawing and textures are not modelled: the texture loaded by the constructor and `set_font`, `draw_all` and `TextureHandler::draw`. `set_font` is modelled without its texture swap.
- `get_font`, `get_largest_y` and `get_tags` only return a field, so they are not modelled.
- `SDL_GetTicks64()` is a parameter. Expiry is a plain integer: the `Uint64` arithmetic and the `int`/`Uint64` comparison in `update()` are not modelled.
- Integer widths are not modelled: `int` and `std::size_t` are unbounded integers. The `* 1.5` scaling is exact integer arithmetic that truncates toward zero, not `double` arithmetic.
- ECS.Entity.Update: records each component's `update()` call in a trace instead of running it. That call is virtual, and its bodies are user code outside this core.
- ECS.EntityHandler.Update: records the entities it updates, not their components' calls. It does not model the index changing during the sweep, because the bodies that could change it are not visible.
- ECS.Entity.HasComponent: requires the type's id to be below 32. Past that bound the source reads outside the bitset, which is undefined behaviour.
- ECS.Entity.AddComponent: requires the type's id to be below 32. Past that bound the source writes outside the array and the bitset.
- ECS.Entity.GetComponent: requires the type's id to be below 32, for the same reason. The slots the source leaves uninitialised hold arbitrary values in the model too, and a component is guaranteed only where the presence bit is set.
- Deleting components is not modelled: the instance leaked when its type is re-added, and destructors.
- The handler's `width` and `height` fields are not modelled, because no core operation uses them.
- The component types are names, not C++ types. The registry is one object passed to each call, standing in for the static counters.
- ECS.Entity.HasComponent, ECS.Entity.GetComponent and ECS.Entity.AddComponent: require the entity's stores to agree with the registry (`Typed`). In the source this always holds, because there is only one registry. In the model the constructors establish it and every operation keeps it, but it is stated as a precondition, not as a property of all entities at once.
- `include/ojae/InputHandler.h` and `include/ojae/Tilemap.h` are not part of this model: they only declare the tilemap's operations and SDL event dispatch, so there is nothing in them to model against.
