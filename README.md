# whichwayisup2 — a verified model of the level core

This project models the core of *Which Way Is Up?*, a 2D platformer whose
levels rotate. The core is the level: its tile grid and its "active" tiles,
the flip of the level by a quarter turn, the cached ground check, and the
collision resolver that tells a sprite which tile sides stop it. The model
also covers the edits that the level editor applies (remove a tile, put a
wall, bars or spikes), the levers and pickable items of the level, and the
scripted events that play dialogue and move the player. Around the level sit
the world's list of levels with its unlock record, the `log_message` store,
and the small direction and text helpers of `util.py`.

Files and modules:

- `tiles.dfy`, module `Tiles`: tiles as values, with an id that stands for Python
  object identity. It holds `reset_active_tiles`' filter, `find_tile`'s search,
  the list removal that `remove_tile` performs, and the tile-block parse.
- `collision.dfy`, module `Collisions`: `collide` as a left-to-right fold over the
  active tiles, with a worked example of a sprite landing on a tile.
- `level.dfy`, module `Levels`:
  - the `Level` class, whose fields the methods update in place;
  - `get_tile_type`;
  - the flip timer;
  - the ground-check cache;
  - `change`, `trigger` and `pick_up`.
- `scripted_event.dfy`, module `ScriptedEvents`: parsing of event lines and the
  element cursor of `next_element`.
- `item.dfy`, module `Items`: `Item` and its lever activation. `world.dfy`,
  module `Worlds`: the world file and `get_level`. `log.dfy`, module `Log`: the
  global variable store and `log_message`.
- `util.py`'s helpers are in `util.dfy` (`Util`). String helpers are in
  `text.dfy` (`Text`). Their whitespace is that of Python 2 `str` (bytes) for the
  world file, which is read with `open`, and that of `unicode` for the level and
  config files, which are read with `codecs.open`. Pygame's `Rect` is in `geometry.dfy` (`Geometry`),
  direction codes are in `locals.dfy` (`Locals`), and `Option`/`Result` are in
  `wrappers.dfy`.

How the state-changing methods are specified:

- Each method that changes the level is a method of `Levels.Level`.
- Its postcondition ties the new fields to a function of the old ones:
  - `Positives` for `reset_active_tiles`;
  - `Sweep`/`RemoveEach` for `remove_tile`;
  - `Made` for `add_tile`;
  - `GridOf` for the tile block;
  - `Resolve` for `collide`;
  - `GroundAt` for `ground_check`;
  - `Tick` for `update`.
- Lemmas beside those functions state what the game relies on.

Behaviour of the code that the model keeps, each proved as a lemma:

- `remove_tile` removes from the list it iterates. After each removal, the
  next tile is skipped (`Tiles.SweepStepsOver`).
- `change` tests `tile_change in "WBS"` as a substring test. So `""`, `"WB"`
  and `"BS"` are also accepted as placements (`Levels.EditCodes`).
- `collide` lets a later tile overwrite an earlier tile's report. The down
  side and the damage come from the last tile that reports a floor
  (`Collisions.ResolveAppend`, `Collisions.DownFromLastTile`).
- The ground-check cache is cleared only by `flip`. After a tile is
  removed, the cache can still claim ground where there is none
  (`Levels.StaleAfterRemoval`).
- The tile block reads `FULL_TILES_VER` characters on each of
  `FULL_TILES_VER` rows. The vertical constant bounds the columns as well
  (`Tiles.SquareBlock`).
- `flip` adds or subtracts 1 from the orientation without wrapping it
  (`Levels.Level.Flip`).
- `reset_active_tiles` keeps the tiles whose pixel position is strictly
  positive on both axes (`Tiles.Positives`).

Python errors are modelled as error results named after the exception
(`KeyError`, `IndexError`, `UnboundLocalError`, `UnknownTileException`,
`TypeError`).

## Model

| member | source | states |
|---|---|---|
| Levels.TileTypeOfFails | lib/level.py:34-39 | get_tile_type raises UnknownTileException exactly when no keyword of the table occurs in the file name of the path |
| Levels.TileTypeOfFirst | lib/level.py:36-38 | a found type is the type of the first keyword, in table order, that occurs in the file name |
| Levels.TileTypeOf | lib/level.py:34-39 | get_tile_type on the base name: the type of the first table keyword found in it, or UnknownTileException; TileTypeOfFails and TileTypeOfFirst state both cases |
| Levels.GetTileType | lib/level.py:34-39 | the loop over the keyword table returns the type of the first keyword found in the base name, or the UnknownTileException error |
| Levels.Tick | lib/level.py:165-172 | one update: idle stays idle; a flip reports its end exactly when the counter passes FLIP_FRAMES and then rests at counter 0, otherwise the counter advances by one |
| Levels.IdleReportsNothing | lib/level.py:163-175 | a level that is not flipping reports no flip end and keeps its state over any number of updates |
| Levels.FlipRunsOut | lib/level.py:165-172 | from counter c a flip reports its end once, on update FLIP_FRAMES - c + 1, and is at rest from then on |
| Levels.FlipLasts | lib/level.py:163-175 | a started flip reports nothing for FLIP_FRAMES updates, then reports its end exactly once |
| Levels.ShippedFlipLength | lib/constants.py:21-22 | with constants.py's FLIP_FRAMES of 150, a flip ends on its 151st update |
| Levels.GroundAt | lib/level.py:244-255 | a cached point returns the cached answer and leaves the cache alone; an off-screen point is ground and is not cached; otherwise the answer is whether an active tile contains the point, and it is cached |
| Levels.GroundCheckSound | lib/level.py:244-255 | from a cache that agrees with the active tiles, ground_check answers whether the point is ground and the cache keeps agreeing |
| Levels.GroundCheckRepeats | lib/level.py:245-246 | asking the same point twice gives the same answer and leaves the cache as the first call did |
| Levels.StaleAfterRemoval | lib/level.py:337-347 | remove_tile does not clear the ground-check cache: after the only tile is removed, the cached point still reads as ground although it is not |
| Levels.SweepOut | lib/level.py:342-347 | the removal loop leaves exactly the active tiles Sweep keeps, removes from the tile list exactly the tiles Sweep takes out, and reports a hit exactly when it took one |
| Levels.EditCodes | lib/level.py:330 | the substring test `in "WBS"` accepts exactly "", W, B, S, WB, BS and WBS |
| Levels.Level.constructor | lib/level.py:43-61 | a new level is at rest: no tiles, no objects, orientation 0, counter 0, empty cache |
| Levels.Level.AddTile | lib/level.py:350-364 | add_tile appends one tile of the kind W, B or S names at the given cell, appends nothing for any other code, and marks the level edited either way |
| Levels.Level.FindTile | lib/level.py:366-369 | find_tile returns the first tile in list order at the cell, or nothing exactly when no tile occupies it |
| Levels.Level.ResetActiveTiles | lib/level.py:177-182 | the active tiles become the tiles with positive x and y, in list order; nothing else changes |
| Levels.Level.Flip | lib/level.py:208-220 | during a flip nothing changes; otherwise the flip starts, the cache is emptied, the orientation moves by +1, -1 or 0 by the direction, and every tile is turned |
| Levels.Level.Update | lib/level.py:163-175 | the flip state follows Tick; while flipping every tile is updated, and on the update that ends the flip the active tiles are reset and the image dropped |
| Levels.Level.GroundCheck | lib/level.py:244-255 | the result and the new cache are those of GroundAt on the old cache |
| Levels.Level.Collide | lib/level.py:260-313 | the collision is the fold Resolve of the active tiles against the rect grown by one pixel in width and height |
| Levels.Level.ExposedFaces | lib/level.py:289-292 | a tile face counts only when the grown rect meets that edge and find_tile finds no neighbour on that side |
| Levels.Level.Uncovered | lib/level.py:289-292 | a face is exposed exactly when its edge is met and the neighbouring cell is empty |
| Levels.Level.CollideWith | lib/level.py:275-311 | one loop step updates the collision exactly as Apply does for that tile |
| Levels.Level.RemoveTile | lib/level.py:337-347 | the active tiles become what Sweep keeps, the tiles lose what Sweep takes out, and edited is set when a tile was removed |
| Levels.ChangeMessage | lib/level.py:323-325 | the logged text: "Made change ", the code, " to coords " and the two coordinates in decimal, a minus sign before a negative one |
| Levels.CellCentre | lib/level.py:343-344 | the pixel that remove_tile tests for cell c, c times TILE_DIM plus half of TILE_DIM rounded down, lies inside cell c for a positive tile size |
| Levels.Level.Change | lib/level.py:316-335 | no change does nothing; otherwise the message is logged; "remove" removes the tile at the cell; any other code that passes the WBS substring test removes, shifts the cell by the full-minus-visible grid size, places the tile and resets the active tiles; other codes change no tile |
| Levels.Level.AddTileRow | lib/level.py:76-83 | one row appends the tiles of the first FULL_TILES_VER characters in order, and the row is rejected (IndexError) exactly when the line is shorter |
| Levels.Level.ReadTileBlock | lib/level.py:75-86 | the block parse appends exactly the tiles of GridOf over the lines, and stops on the first short line or after FULL_TILES_VER rows |
| Levels.Level.PickUp | lib/level.py:234-240 | pick_up removes and returns the first object, in list order, that contains the point and is pickable; it returns nothing and changes nothing when there is none |
| Levels.Level.Trigger | lib/level.py:223-230 | trigger activates, in order, every lever that contains the point until one hands out its trigger, which is returned and placed at the lever; other objects are untouched, and every trigger but the one handed out keeps its position |
| Collisions.FacesOf | lib/level.py:286-292 | the four open faces of a tile: one is open when the grown rect meets its edge and no tile occupies the neighbouring cell on that side; Levels.Level.ExposedFaces is proved to compute it with find_tile |
| Collisions.Apply | lib/level.py:267-311 | one turn of the loop: an unaligned tile, or one whose box does not overlap the rect, leaves the collision as it was; a side it changes becomes the matching edge of this tile, and only in the direction of motion; a changed damage goes with a floor at this tile's top, 5 on spikes and 0 otherwise |
| Collisions.Resolve | lib/level.py:297-311 | a reported side agrees with the motion: right needs dx > 0, left dx < 0, down dy >= 0, up dy < 0; the damage is 0 or 5 and is non-zero only with a floor |
| Collisions.Hit | lib/level.py:279-311 | a side reported for one tile is that tile's edge coordinate, the tile is aligned, no tile covers that face, and spikes under the sprite deal 5 damage |
| Collisions.ResolveAppend | lib/level.py:267-311 | the result over two runs of tiles is the first run's result overwritten by the second's, so later tiles win |
| Collisions.DownFromLastTile | lib/level.py:304-309 | the floor and the damage come from the last tile that reports a floor; with none there is no floor and no damage |
| Collisions.ReportedSidesAreExposed | lib/level.py:289-311 | every reported side is the edge of an aligned active tile whose neighbour on that side is empty |
| Collisions.UnalignedIgnored | lib/level.py:268-273 | tiles that are not aligned do not change the result |
| Collisions.DropOntoLoneTile | lib/level.py:260-313 | a sprite falling onto a lone tile gets a floor at the tile's top, with 5 damage for spikes |
| Collisions.DropOntoCoveredTile | lib/level.py:290 | a sprite falling onto a tile with another tile above it gets no collision |
| Tiles.MapPoses | lib/level.py:173-174 | the per-tile loops of update and flip (also lib/level.py:218-219): every tile keeps its id and kind and gets the new pose, in list order |
| Tiles.Positives | lib/level.py:177-182 | the active tiles are exactly the tiles with positive x and y |
| Tiles.PositivesIdempotent | lib/level.py:177-182 | filtering the active list a second time changes nothing: every active tile already has positive x and y |
| Tiles.PositivesAppend | lib/level.py:177-182 | the filter distributes over list concatenation |
| Tiles.FirstAt | lib/level.py:366-369 | the first index whose tile is at the cell, with no earlier tile there |
| Tiles.FirstAtAppended | lib/level.py:363 | a tile appended at an empty cell is the one find_tile returns there |
| Tiles.Sweep | lib/level.py:342-347 | the removal loop keeps only tiles of the list, takes out only tiles containing the point, and takes none exactly when no tile contains it |
| Tiles.SweepStepsOver | lib/level.py:342-346 | of two tiles that both contain the point, the loop removes only the first |
| Tiles.SweepKeepsIdsApart | lib/level.py:342-346 | no tile is both kept and removed, and neither list holds a tile twice |
| Tiles.RemoveFirst | lib/level.py:345-346 | list.remove: a tile of the list loses its first occurrence and the list shrinks by one; other tiles stay. A tile not in the list leaves it unchanged where Python raises ValueError; that case cannot arise, because Level.Valid() keeps the active tiles among the tiles |
| Tiles.RemoveEachRemoves | lib/level.py:346 | removing the taken-out tiles from the tile list leaves none of them |
| Tiles.Made | lib/level.py:355-363 | add_tile makes one tile of the named kind at the cell for W, B or S, and none otherwise |
| Tiles.SquareBlock | lib/level.py:75-86 | on lines long enough, the block holds exactly the W, B and S cells of a FULL_TILES_VER square and ends on the line after it |
| Tiles.GridOf | lib/level.py:75-86 | the tile block read from the lines: its cells, row counter, error and stop state, and how many lines it used, never more than there are |
| Tiles.GridStopped | lib/level.py:84-86 | once the block parse has stopped, further lines add nothing |
| ScriptedEvents.ParseElement | lib/scripted_event.py:33-48 | add_element's parse of one line into an element and the new last direction, or the exception; ParseElementMeaning and the Parse lemmas below state its meaning |
| ScriptedEvents.ParseElementMeaning | lib/scripted_event.py:33-48 | the element carries the first word as its type; only dialogue and player lines can fail; only a player orientation line changes the last direction |
| ScriptedEvents.ParseDialogue | lib/scripted_event.py:36-37 | a dialogue line gives a dialogue element whose text is the rest of the line stripped of unicode whitespace, the no-break space and the other Unicode spaces included |
| ScriptedEvents.ParsePlayerOrientation | lib/scripted_event.py:40-42 | "player orientation D" sets the last direction to D and records it, and an unknown direction is a KeyError |
| ScriptedEvents.ParsePlayerAnimation | lib/scripted_event.py:43-44 | "player animation A" records A with the last direction |
| ScriptedEvents.ParsePlayerOther | lib/scripted_event.py:39-44 | any other player command leaves the element unbound (UnboundLocalError) |
| ScriptedEvents.ParseOther | lib/scripted_event.py:45-46 | any other keyword gives a bare element of that type |
| ScriptedEvents.Next | lib/scripted_event.py:50-65 | one call of next_element on the counter and repeat count; the counter never drops below -1, and NextKeepsInv and RunPasses state the rest |
| ScriptedEvents.NextKeepsInv | lib/scripted_event.py:50-65 | next_element keeps the counter within the elements and the repeat count within `times` |
| ScriptedEvents.RunWhenDone | lib/scripted_event.py:51-53 | once the event has repeated `times` times it only returns end elements and its state stays put |
| ScriptedEvents.RunPasses | lib/scripted_event.py:50-65 | k passes return the elements followed by an end, k times over, and leave the repeat count at k |
| ScriptedEvents.RunToCompletion | lib/scripted_event.py:50-65 | after `times` full passes every further call returns end |
| ScriptedEvents.NeverRuns | lib/scripted_event.py:51-53 | an event with times 0 returns only end elements |
| ScriptedEvents.TwoElementsTwice | lib/scripted_event.py:50-65 | a two-element event run twice returns e0, e1, end, e0, e1, end, then end |
| ScriptedEvents.ScriptedEvent.constructor | lib/scripted_event.py:25-31 | a new event has no elements, counter -1, no repeats, and last direction RIGHT |
| ScriptedEvents.ScriptedEvent.AddElement | lib/scripted_event.py:33-48 | a parsed line appends its element and sets the last direction; a failing line changes nothing |
| ScriptedEvents.ScriptedEvent.NextElement | lib/scripted_event.py:50-65 | the returned element and the new counter and repeat count are those of Next |
| Util.CycleClockwise | lib/util.py:242-246 | on the orientations 0..3 it steps to the next one modulo 4, and anything above 2 goes to 0 |
| Util.CycleCounterClockwise | lib/util.py:249-253 | on 0..3 it steps back modulo 4, and anything below 1 goes to 3 |
| Util.CyclesAreInverse | lib/util.py:242-253 | the two cycles undo each other on 0..3 |
| Util.TurnClockwiseIsModular | lib/util.py:242-246 | n clockwise steps add n modulo 4, so four steps come back to the start |
| Util.StrToBool | lib/util.py:159-161 | true exactly when the value, stripped of unicode whitespace and lowered, is "true", "1" or "on" |
| Util.BoolToStr | lib/util.py:164-165 | writes "on" or "off", which str_to_bool reads back (BoolCodecRoundTrip) |
| Util.BoolCodecRoundTrip | lib/util.py:159-165 | str_to_bool reads back what bool_to_str writes |
| Util.StrToBoolNormalised | lib/util.py:159-161 | str_to_bool ignores surrounding unicode whitespace and letter case |
| Util.NoBreakSpaceIsStripped | lib/util.py:159-161 | a config value of "true" followed by a no-break space, or "On" after an em space, reads as true, since the config file is read as unicode |
| Util.DirNamesRoundTrip | lib/util.py:268-273 | dir_from_str and str_from_dir are inverse on the four names and the four codes |
| Util.DirFromStr | lib/util.py:268-269 | defined (no KeyError) exactly on LEFT, RIGHT, UP and DOWN |
| Util.StrFromDir | lib/util.py:272-273 | defined exactly on the four direction codes |
| Util.GetDirection | lib/util.py:256-265 | the four directions give unit vectors and any other code gives (0, 0) |
| Util.CycleTurnsDirection | lib/util.py:242-265 | one clockwise step turns the direction vector by a quarter turn, two steps reverse it |
| Util.GetEdges | lib/util.py:315-321 | the four edges are zero-width or zero-height boxes along the sides of the rect |
| Util.EdgeContacts | lib/util.py:315-321 | a rect meets an edge exactly when the edge line passes strictly through it |
| Util.AllCollided | lib/util.py:324-328 | true exactly when the rect collides with every other rect |
| Util.ShownText | lib/util.py:207-210 | phase -1 shows the whole text, and another phase shows that many leading characters |
| Util.NextPhase | lib/util.py:207-208 | the phase step, with -1 first read as the whole length (also lib/util.py:233-239): from -1 or above, the next phase is -1, once the text is out, or a count between 1 and the length |
| Util.TypewriterReveal | lib/util.py:233-239 | after k frames the first k characters show, and after the text is out the phase is -1 and the whole text shows |
| Worlds.LevelOfLine | lib/world.py:16-19 | one line of the world file: nothing for a blank line or a line of another kind, the level name for a "level" line, and IndexError for a lone "level" |
| Worlds.LevelOfLineMeaning | lib/world.py:16-19 | a line adds its second word when its first word is "level"; a lone "level" is an IndexError |
| Worlds.LevelList | lib/world.py:15-19 | the level names of the world file in order, or the first line's error |
| Worlds.ParseLevelList | lib/world.py:15-19 | the loop over the world file gives exactly LevelList, stopping at the first erroneous line |
| Worlds.WorldFileRoundTrip | lib/world.py:15-19 | writing one "level name" line per level and parsing it back gives the same list |
| Worlds.LevelAt | lib/world.py:31 | an index is valid from -len to len-1, as Python list indexing allows |
| Worlds.Unlock | lib/world.py:34-35 | the unlocked record becomes the larger of itself and the level index |
| Worlds.UnlockIsMonotone | lib/world.py:34-35 | unlocking never lowers the record and is idempotent |
| Worlds.World.constructor | lib/world.py:7-21 | a new world starts at level 0, numbered index + 1, and the level count is the list's length |
| Worlds.World.Open | lib/world.py:7-21 | opening fails exactly when the world file has an erroneous level line, and otherwise holds the parsed list |
| Worlds.World.IsNextLevelGuardsGetLevel | lib/world.py:23-31 | is_next_level is true exactly when get_level can index the list |
| Worlds.World.GetLevel | lib/world.py:26-38 | get_level sets the index and returns nothing where Python raises IndexError (no such level) or KeyError (no unlock record); otherwise it returns the level, raises the unlock record and advances the index |
| Items.LeverFiresFirst | lib/item.py:29-37 | a lever hands out its trigger on its first max_activations activations and never again, or always with -1 |
| Items.DefaultLeverFiresOnce | lib/item.py:8 | with the default limit of 1 a lever fires on its first activation only |
| Items.Item.constructor | lib/item.py:8-27 | a new item has no activations and gets a trigger at its position exactly when a trigger type is given |
| Items.Item.Activate | lib/item.py:29-37 | a lever counts the activation, returns its trigger moved to the lever while within the limit, and turns broken on the last allowed one; when it hands nothing out, and for other items, the trigger keeps its position |
| Log.LogStep | lib/log.py:15-31 | a repeat of the last message changes nothing; otherwise the message becomes the last one and is put in front of the log; a missing verbose key is a KeyError |
| Log.LogMessage | lib/log.py:15-31 | the store afterwards is that of LogStep |
| Log.ErrorMessage | lib/log.py:10-12 | an error is logged as "Error: " followed by the message |
| Log.LogTwiceIsOnce | lib/log.py:19-21 | logging the same message twice in a row has the effect of logging it once |
| Log.LogIsNewestFirst | lib/log.py:26-31 | after a run of messages the log holds them newest first, each run of repeats once |
| Geometry.Rect.Clip | lib/level.py:275-277 | the overlap is non-empty exactly when the boxes collide, and then it is their intersection |

## Left out

- Reading level files from disk is left out. This covers the TMX import, the `set`/`trigger`/object lines of the level file and the construction of players, spiders, blobs and items. Only the character tile block is modelled (`lib/level.py:75-86`), and a level is built from its lines as data.
- Rendering, images, background animations, sound and `print` are left out. The `verbose` print in `log_message` is left out, but its `verbose` lookup is kept.
- `lib/tile.py` and `lib/spikes.py` are not part of this model. A tile's constructor is a parameter of the level (`place`), and so are its flip (`turn`) and its per-frame update (`tick`). Whether a tile is aligned is a field of its pose.
- pygame's `Rect` is not part of this model. It is replaced by an integer box with pygame's strict `colliderect`, half-open `collidepoint` and intersecting `clip`.
- `lib/locals.py` is not part of this model. The direction and rotation codes are assumed values (0..3 clockwise, and +1/-1). The level's dimensions are the symbolic `Levels.Dims`. `TILE_TYPE_MAP` is a parameter whose iteration order is given as a list.
- `lib/trigger.py` and `lib/visibleobject.py` are not part of this model. A trigger is reduced to its type and position, and an item to the fields `activate`, `trigger` and `pick_up` use.
- Items.Item.constructor: gives a trigger-carrying item `pickable` false. The source leaves that field to `VisibleObject`, which is not part of this model.
- Items.Item.Activate: requires a lever to carry a trigger. The source would raise AttributeError when a lever built without a trigger type fires.
- The parts of `lib/util.py` outside the listed helpers are left out: config files, the score, `render_text`, fading and full screen. So are `lib/main.py`, `lib/engine.py`, `lib/frame.py` and `alpha_adder.py`.
- Level.get_objects, get_player and get_scripted_events only return fields and are left out.
- Integers are unbounded, as in Python. No overflow is modelled.
- Text.Lower: lowers only the characters whose lower case is ASCII (A to Z, U+0130 and U+212A). unicode.lower() also lowers other non-ASCII capitals, to non-ASCII letters. Those letters cannot change whether a value lowers to "true", "1" or "on", the only use of lower().
- Util.StrToBoolNormalised: letter case is ignored in the sense of Text.Lower, which leaves non-ASCII capitals other than U+0130 and U+212A as they are; str_to_bool's answer is the same either way.
