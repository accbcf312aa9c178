# Snake — game rules and the search heap, in Dafny

A browser snake game in two versions. The first version (`snake.js`) is a
snake on a grid. Each tick its tail is recycled as the new head, and it
appends four copies of its tail when it eats. Its score is its length minus
the start length. The second version (`js/snake.js`) adds:

- growth spread over ticks;
- coins, bombs (at most ten live at once) and a shop of one-off purchases and per-game upgrades;
- records kept across games;
- a heap class meant for a path-search opponent that was never written.

This project models the rules of both versions on integer grid cells.

- `Geometry` holds the rectangle tests. Both versions share the same `collidesWith`/`isInside` code.
- `Directions` holds the four directions.
- `SnakeBody` holds the second version's snake.
- `ClassicSnake` holds the first version's snake and key handler.
- `TicksText` holds the time formatting.
- `Game` holds the game session, the shop and the records. It keeps an upgrade's `buy` both as written and as evidently intended; the game uses the intended one (see Findings).
- `Heaps` holds the heap as its code evidently intends. `HeapAsWritten` holds the heap as it is written, with the inputs that show the difference (see Findings).

A snake is a sequence of cells with the head first. The `Body` value and the pure
`Step`/`Advance` functions specify the snake's `Move`, and the lemmas about them
give the length rule, the head's position and connectedness. The heap is
proved to keep two invariants: every item records its own slot, and no item is
more urgent than its parent. It is also proved to pop the most urgent item.

## Model

| member | source | states |
|---|---|---|
| Geometry.CollidesWithIffInteriorsMeet | js/snake.js:773-782 | for rectangles of positive size, `collidesWith` holds exactly when some point lies strictly inside both |
| Geometry.CollidesWithSymmetric | snake.js:288-297 | `collidesWith` is symmetric |
| Geometry.TouchingDoesNotCollide | js/snake.js:773-782 | rectangles that only share an edge do not collide, in either order |
| Geometry.CellsCollideIffSame | js/snake.js:863-865 | two unit cells (snake parts are 1 by 1) collide exactly when they are the same cell, so a head hits a part only on the same cell |
| Geometry.IsInsideIffContained | js/snake.js:784-791 | for a rectangle of non-negative size, `isInside` holds exactly when its left/top are at least the other's and its right/bottom at most the other's |
| Geometry.IsInsideReflexiveTransitive | snake.js:299-306 | containment is reflexive and transitive |
| Geometry.InsideImpliesCollides | js/snake.js:773-791 | a rectangle of positive size inside another collides with it |
| Geometry.CollidesWith | js/snake.js:773-782 | rectangles collide only when both sums of their widths and of their heights are positive |
| Geometry.IsInside | js/snake.js:784-791 | a rectangle lies inside another only when it is no wider and no taller |
| Directions.IsOppositeProperties | js/snake.js:101-103 | `isOpposite` is symmetric and irreflexive, holds only for the direction's own opposite, and opposite-of-opposite is the direction |
| Directions.OppositeMovementCancels | js/snake.js:120-131 | moving by an amount and then back by the opposite direction returns to the start |
| Directions.StepIsAdjacent | js/snake.js:120-131 | one step lands on a neighbouring cell and keeps the other coordinate; different directions give different cells |
| Directions.AdjacentHasDirection | js/snake.js:120-131 | every neighbouring cell is one step in some direction |
| Directions.OppositeOf | js/snake.js:120-131 | the opposite of a direction is a different direction on the same axis (left/right or up/down) |
| Directions.IsOpposite | js/snake.js:101-103 | a direction is opposite only to a different direction on its own axis |
| Directions.ApplyMovement | js/snake.js:120-131 | left/right keep y and up/down keep x; the moved coordinate grows by the amount for right and down and shrinks by it for left and up |
| SnakeBody.Step | js/snake.js:869-902 | one step of `move`: the new head is one cell ahead; with growth pending, the body gains a part, growth drops by one and every old part stays; otherwise the length is kept, growth stays 0 and every part takes its predecessor's old cell (the tail is dropped) |
| SnakeBody.Advance | js/snake.js:868-904 | `amount` steps never shorten the snake |
| SnakeBody.AdvanceLength | js/snake.js:868-904 | after `amount` steps the length grew by min(amount, growth) and the growth fell by the same |
| SnakeBody.AdvanceHead | js/snake.js:868-904 | after `amount` steps the head is `amount` cells ahead of the old head |
| SnakeBody.AdvanceGrowingKeepsParts | js/snake.js:877-882 | while growth lasts, `amount` steps prepend `amount` parts and keep the old body behind them |
| SnakeBody.AdvanceShiftingDropsTail | js/snake.js:884-901 | with no growth, `amount` steps keep the length and drop exactly the last `amount` parts |
| SnakeBody.AdvanceKeepsConnected | js/snake.js:868-904 | a body whose consecutive parts are neighbouring cells stays so |
| SnakeBody.Snake.constructor | js/snake.js:826-841 | five parts (7,2), (6,2) … (3,2), head first, connected, heading right, growth 0, growth per food 4 |
| SnakeBody.Snake.Head | js/snake.js:847-849 | the first part, absent for an empty snake |
| SnakeBody.Snake.Butt | js/snake.js:851-853 | the last part, absent for an empty snake |
| SnakeBody.Snake.PopButt | js/snake.js:855-857 | removes and returns the last part; an empty snake stays empty |
| SnakeBody.Snake.Grow | js/snake.js:859-861 | growth rises by the amount |
| SnakeBody.Snake.Move | js/snake.js:868-904 | the new body is `Advance` of the old one, and the head is `amount` cells ahead |
| SnakeBody.Snake.MoveOnce | js/snake.js:869-902 | the new body is `Step` of the old one |
| SnakeBody.Snake.CollidesWith | js/snake.js:906-914 | true when some part collides with the rectangle, and absent (not false) when none does |
| SnakeBody.Snake.IsInside | js/snake.js:916-924 | true when some part lies inside the rectangle, and absent (not false) when none does |
| SnakeBody.Snake.HeadHitsBody | js/snake.js:1008-1014 | true exactly when some part other than the head is on the head's cell |
| SnakeBody.Snake.OnCollide | js/snake.js:1021-1031 | a snake or a bomb it cannot defuse kills it; food dies, adds the growth per food and counts an apple; a coin dies; nothing else changes |
| SnakeBody.Snake.CutInHalf | js/snake.js:230-237 | a snake of n > 2 parts keeps exactly its front floor(n/2) parts; a shorter one is unchanged |
| ClassicSnake.KeyDirection | snake.js:20-23 | exactly the four arrow keys map to a direction |
| ClassicSnake.ScoreCountsMeals | snake.js:53-56 | over any run of ticks without a restart, the score (length minus 5, snake.js:111) rises by exactly 4 per food eaten |
| ClassicSnake.MovedForwardShape | snake.js:256-277 | one tick drops the tail, keeps the other parts in order and puts the new head next to the old head |
| ClassicSnake.Snake.constructor | snake.js:202-211 | `length` parts at (length,2), (length-1,2) … (1,2), head first, heading right |
| ClassicSnake.Snake.Head | snake.js:229-231 | the first part, absent for an empty snake |
| ClassicSnake.Snake.Butt | snake.js:233-235 | the last part, absent for an empty snake |
| ClassicSnake.Snake.PopButt | snake.js:237-239 | removes and returns the last part |
| ClassicSnake.Snake.Append | snake.js:245-251 | the length grows by exactly n, the old parts are unchanged and every new part is on the old tail's cell |
| ClassicSnake.Snake.MoveForward | snake.js:256-277 | the parts become the old parts without the tail, behind a new head one cell ahead of the old head in the snake's direction |
| ClassicSnake.OnKeyDown | snake.js:121-129 | an unmapped key changes nothing; the direction never becomes the opposite of the old one; a mapped key that is not opposite is taken |
| ClassicSnake.Snake.HeadCollidesWith | snake.js:252-254 | for a unit cell, true exactly when the head is on that cell |
| ClassicSnake.AfterTick | snake.js:42-56 | one tick keeps the length, or adds 4 parts when the snake ate, and puts the new head one cell ahead |
| ClassicSnake.Replay | snake.js:42-56 | over a run of ticks without a restart, the snake grows by exactly 4 parts per food eaten and by nothing else |
| TicksText.JsRem | js/snake.js:372 | the remainder of truncating division: smaller than the divisor in size, with the dividend's sign, and differing from the dividend by a multiple of the divisor |
| TicksText.NatToString | js/snake.js:381-390 | the decimal text of a number is non-empty and all digits |
| TicksText.BelowOneSecond | js/snake.js:368-397 | fewer than 20 ticks give "0 seconds" |
| TicksText.FromOneSecond | js/snake.js:368-397 | unfolds the text from 20 ticks on for the lemmas that follow: it is the minutes part and then the seconds part, with floor(t/20) = 60·minutes + seconds |
| TicksText.TicksToString | js/snake.js:368-397 | the text is never empty and always starts with a digit |
| TicksText.SingularForms | js/snake.js:376-393 | one minute reads "1 minute "; one second reads "1 second" at the end of the text |
| TicksText.TrailingSpace | js/snake.js:376-395 | from 20 ticks on, the text ends in a space exactly when the seconds are 0 |
| TicksText.NatToStringValue | js/snake.js:381-390 | the decimal text reads back as the number |
| TicksText.ParseTicksToString | js/snake.js:368-397 | the text reads back as the whole number of seconds floor(t/20) (0 for negative t), so different seconds give different texts |
| TicksText.RemainderLeavesMultiple | js/snake.js:372 | a non-negative number minus its remainder is a multiple of the divisor |
| TicksText.MultipleMod | js/snake.js:372 | a multiple of the divisor has remainder 0, also when negative |
| Game.KeyDirection | js/snake.js:296-301 | exactly W/A/S/D and the arrow keys map to a direction, each key pair to its own direction |
| Game.Steer | js/snake.js:408-417 | the new direction is never the opposite of the current one; it is the key's direction unless the key is unmapped or points straight back |
| Game.Charge | js/snake.js:1263-1275 | a buy goes through exactly when the item is enabled and the coins cover the price, and then exactly the price is paid |
| Game.ChargeKeepsCoinsInRange | js/snake.js:1263-1275 | buying never drives coins negative or raises them |
| Game.ChargeAllPaysWhatWasSpent | js/snake.js:1263-1275 | after any series of buys of enabled items, the coins are the start coins minus the prices of the buys that went through, and never negative |
| Game.Record | js/snake.js:469-476 | a saved record after a game is the larger of the old record and the game's value |
| Game.RecordAllIsMaximum | js/snake.js:469-476 | after any series of games, the record is the maximum of the old record and every game's value |
| Game.CapBombs | js/snake.js:578-593 | the list is never empty and the new bomb is last (the newest) |
| Game.CapBombsKeepsNewest | js/snake.js:578-593 | with at most 10 live bombs before, exactly the newest min(n+1, 10) are kept, in order |
| Game.SpawnAllLength | js/snake.js:578-593 | placing bombs one by one leaves min(total, 10) live |
| Game.SpawnAllKeepsNewest | js/snake.js:578-593 | however many bombs are placed, exactly the newest min(total, 10) live, in insertion order |
| Game.SpawnAllIsSuffix | js/snake.js:578-593 | the bombs left after placing any number are a suffix of the old bombs followed by the new ones |
| Game.WithoutBomb | js/snake.js:597-604 | the live bombs without one of them: exactly the others stay, the list gets shorter when the bomb was live, and is unchanged when it was not |
| Game.WithoutBombDistributes | js/snake.js:597-604 | sweeping a dead bomb from two lists joined is sweeping each in place, so the other bombs keep their order |
| Game.WithoutBombCutsOut | js/snake.js:597-604 | a bomb that is live once is cut out of its slot, with the bombs before and after it unchanged and in order |
| Game.WithoutBombBetween | js/snake.js:597-604 | sweeping a bomb that sits once between two runs of other bombs leaves the two runs joined |
| Game.Purchase.constructor | js/snake.js:1251-1261 | a purchase starts disabled |
| Game.Purchase.Buy | js/snake.js:1263-1275 | coins and "went through" are as `Charge` says; a buy that went through marks the purchase bought |
| Game.Purchase.Update | js/snake.js:1277-1284 | disabled exactly when the coins do not cover the price; for "Cut in Half" instead exactly when the snake has at most 10 parts (js/snake.js:238-242) |
| Game.Upgrade.Buy | js/snake.js:1332-1342 | as written: an upgrade not yet bought is charged as `Charge` says and is then both bought and disabled, even when the charge did not go through; a bought one changes nothing |
| Game.Upgrade.BuyCharged | js/snake.js:1332-1342 | as intended: an upgrade not yet bought is charged as `Charge` says and becomes bought, and disabled, exactly when the charge went through; a bought one changes nothing |
| Game.FreeUpgradeAsWritten | js/snake.js:1313-1315 | as written, clicking "Double Score" in a fresh game with no coins grants it and charges nothing |
| Game.FreeUpgradeRefused | js/snake.js:1332-1342 | with the intended `buy`, the same click leaves it unbought and charges nothing |
| Game.Upgrade.constructor | js/snake.js:1327-1331 | an upgrade starts disabled and not bought, with its listed price |
| Game.Upgrade.Update | js/snake.js:1344-1345 | disabled exactly when the coins do not cover the price |
| Game.SnakeGame.constructor | js/snake.js:168-254 | stopped, no ticks, score or coins, no snake yet, no bombs, records from the saved values, all six upgrades and three purchases present with their prices and not bought |
| Game.NewUpgrades | js/snake.js:213-222 | the six upgrades, each under its own id with its listed price, disabled and not bought |
| Game.NewPurchases | js/snake.js:225-247 | the three purchases, each under its own id with its listed price, disabled and not bought |
| Game.SnakeGame.OnKeyDown | js/snake.js:403-421 | only while running: the first key of a tick steers as `Steer` says, and every key marks the tick; the direction never becomes the opposite |
| Game.SnakeGame.StartNewGame | js/snake.js:442-456 | running, a fresh five-part snake already moved one cell to the right by its first update (cells (8,2) … (4,2)), score, ticks and apples eaten 0, 250 coins |
| Game.SnakeGame.StopGame | js/snake.js:458-484 | stopped, the snake dead, no bombs, the records are `Record` of the old record and this game, and every upgrade is no longer bought |
| Game.SnakeGame.SpawnBomb | js/snake.js:578-593 | the live bombs become `CapBombs` of the old ones, so at most 10 stay |
| Game.SnakeGame.OnPlayerCollide | js/snake.js:1053-1091 | with phase, snakes pass; a snake or an undefusable bomb ends the game with the records kept and every upgrade no longer bought; no upgrade's disabled flag changes; a defused bomb leaves the live bombs; food adds 1 score (2 with double score) and growth; a coin adds 1 coin (2 with double coin) and drops the tail with coin shrink |
| Game.SnakeGame.CollectReward | js/snake.js:1066-1088 | food adds 1 score (2 with double score); a coin adds 1 coin (2 with double coin) and drops the tail with coin shrink; anything else gives nothing |
| Game.SnakeGame.HasUpgrade | js/snake.js:502-504 | whether the upgrade's bought flag is set |
| Game.SnakeGame.BuyPurchase | js/snake.js:225-247 | charged as `Charge` says; when it goes through, defuse clears the bombs, cut halves the snake, suicide ends the game and resets the upgrades; otherwise the game state, records, snake's life and the upgrades' bought flags are untouched; no upgrade's disabled flag changes; the snake's parts change only by a cut and the bombs only by a defuse |
| Game.SnakeGame.BuyUpgrade | js/snake.js:213-222 | an upgrade not yet bought becomes bought (and disabled) exactly when the charge goes through, and then bomb squad lets the snake defuse bombs and slow growth halves its growth per food; nothing else changes |
| Game.SnakeGame.ApplyUpgrade | js/snake.js:213-222 | bomb squad sets defusing; slow growth halves the growth per food |
| Game.SnakeGame.UpdateShop | js/snake.js:550-561 | outside a stopped game every upgrade and purchase refreshes its disabled flag as its `Update` says; a stopped game leaves them |
| Game.SnakeGame.UpdateUpgrades | js/snake.js:558 | every upgrade ends disabled exactly when the coins do not cover its price |
| Game.SnakeGame.UpdatePurchases | js/snake.js:559 | every purchase ends disabled exactly when the coins do not cover its price; "Cut in Half" exactly when the snake has at most 10 parts |
| Heaps.CompareTo | js/snake.js:1517 | positive exactly when the first item is more urgent, negative exactly when the second is, zero on equal costs |
| Heaps.PrecedesIsStrictWeakOrder | js/snake.js:1539-1544 | urgency is irreflexive, asymmetric and transitive, and "not more urgent" chains |
| Heaps.ParentChildren | js/snake.js:1512-1533 | both children of a slot have it as parent, and every slot but the root is a child of an earlier parent |
| Heaps.RootIsBest | js/snake.js:1494-1503 | in a heap-ordered sequence no item is more urgent than the root |
| Heaps.RootIsBestAt | js/snake.js:1494-1503 | in a heap-ordered sequence no item at any slot is more urgent than the root, by induction up the parent chain |
| Heaps.SiftUpStep | js/snake.js:1510-1526 | one exchange of `sortUp` moves the single order break up to the parent |
| Heaps.SiftDownStep | js/snake.js:1528-1553 | one exchange of `sortDown` with the more urgent child moves the single order break down to that child |
| Heaps.Heap.constructor | js/snake.js:1466-1468 | an empty, valid heap |
| Heaps.Heap.Contains | js/snake.js:1485-1491 | fails exactly for an item with no recorded index; in a valid heap it is true exactly when the item is in the heap |
| Heaps.Heap.Swap | js/snake.js:1555-1563 | the two items trade slots and recorded indices, and each again sits at its recorded slot; every other recorded index is kept |
| Heaps.Heap.SortUp | js/snake.js:1510-1526 | restores heap order, keeps the same items and the same ids indexed, and leaves the index of every id not in the heap alone |
| Heaps.Heap.SortDown | js/snake.js:1528-1553 | restores heap order, keeps the same items and the same ids indexed, and leaves the index of every id not in the heap alone |
| Heaps.Heap.Add | js/snake.js:1470-1479 | the heap stays valid, gains exactly the item, and reports it contained; the index gains only its id, and the index of every id not in the heap is kept |
| Heaps.Heap.PopFirst | js/snake.js:1494-1503 | on an empty heap, nothing; otherwise the old root is returned, no item was more urgent, and the heap stays valid with exactly that item removed, which `contains` now reports absent; the indexed ids are kept, and so is the index of every id not left in the heap |
| Heaps.Heap.RemoveRoot | js/snake.js:1494-1503 | the heap stays valid and loses exactly its root; the indexed ids and the index of every id not in the heap are kept |
| Heaps.Heap.MoveLastToRoot | js/snake.js:1497-1499 | the last item moves to the root slot and its recorded index becomes 0; the heap loses the old root and only the root may be out of order |
| Heaps.PoppedIsAbsent | js/snake.js:1494-1503 | since each id sits at one slot, the root's id occurs nowhere else in the heap |
| Heaps.Heap.Size | js/snake.js:1481-1483 | the number of items |
| Heaps.Heap.EmptyIffNothingContained | js/snake.js:1481-1491 | a valid heap has size 0 exactly when `contains` reports no item present |
| Heaps.Heap.Update | js/snake.js:1506-1508 | after an item becomes at least as urgent, the heap stays valid with the old item replaced by the new one; the indexed ids and the index of every id not in the heap are kept |
| HeapAsWritten.ContainsAsWritten | js/snake.js:1485-1491 | fails exactly when the item has no recorded index, and reports true only for an item in the heap |
| HeapAsWritten.AddAsWritten | js/snake.js:1470-1479 | the item is appended, but the index recorded for it is one less than its slot |
| HeapAsWritten.SortUpParentAsWritten | js/snake.js:1512 | the parent index is half of (slot - 1), a fraction for even slots |
| HeapAsWritten.SortDownAsWritten | js/snake.js:1528-1553 | it succeeds, leaving the items unchanged, exactly when the slot has no second child or neither child is more urgent; otherwise it reaches the undefined `Swap` |
| HeapAsWritten.PopFirstAsWritten | js/snake.js:1494-1503 | when it succeeds it returns the root, and a one-item heap keeps one item |
| HeapAsWritten.AddAsWrittenMisrecords | js/snake.js:1476-1477 | the first item added to an empty heap records index -1, and `contains` then reports it absent |
| HeapAsWritten.SortUpParentAsWrittenIsFractional | js/snake.js:1512 | the parent index `sortUp` reads is a whole slot only for odd slots; from an even slot it is half a slot too high; at the root it is -0.5 |
| HeapAsWritten.PopFirstAsWrittenNeverEmpties | js/snake.js:1494-1503 | popping a one-item heap leaves that item in it |
| HeapAsWritten.PopFirstAsWrittenLeavesDisorder | js/snake.js:1532 | popping from costs 1, 2, 5 leaves cost 5 above cost 2: the lone child is never compared |
| HeapAsWritten.PopFirstAsWrittenFailsOnExchange | js/snake.js:1545 | popping from costs 1, 2, 3, 9 needs an exchange, which calls the undefined `Swap` |

## Left out

- Rendering and the page are left out because they are presentation on floating point: the canvas and its scale search, images and rotation, `paint`, the DOM and HTML generation, tooltips, sliders and overlays.
- Persistence is left out because it is I/O. Cookies and saving are outside the model. The saved records are constructor parameters.
- Timers and the event loop are left out. `setInterval`, `requestAnimationFrame` and the listeners are not modelled. The per-tick `update` is modelled only as its parts: collision handling (`OnPlayerCollide`), the bomb cap (`SpawnBomb`) and the shop refresh (`UpdateShop`).
- Randomness is left out because it comes from `Math.random`. Spawn positions, the food and coin spawns, the tick at which the next bomb is due, coin lifetimes and random directions are not modelled. A new bomb's identity is a parameter.
- Achievements are not modelled (`unlockAchievement`, its conditions and unlocking). They do not affect the rules.
- The path-search opponent does not exist in the source (`ComputerSnake` is empty). A node type with `compareTo` is not part of the shown files either, so the heap's items are fixed to an id with two costs, and `compareTo` orders them by total cost and then by estimate.
- Heaps.Heap.Add: the check that throws when an item has no `compareTo` is not modelled. Every item has one here.
- Heaps.Heap.PopFirst: on an empty heap the source fails (it sets a field of `undefined`). The model returns `None` instead.
- Heaps.Heap.Update: requires the item not to become less urgent. The source sifts only upward, which breaks the order when an item gets worse, and the model does not capture that case.
- SnakeBody.Snake.Move: requires a non-empty snake. The source fails on an empty one (it reads a field of `undefined`). With coin shrink, coins can empty a snake. The model captures `PopButt` emptying the snake, but not a later move.
- Part identity is not modelled. Snake parts are cell values, not objects, so the aliasing between parts is gone. This matters only when a one-part snake recycles its tail as its head, and the resulting cells are the same.
- SnakeBody.Snake.CollidesWith and SnakeBody.Snake.IsInside: the source's `undefined` result is `None`.
- Game.SnakeGame.ApplyUpgrade: slow growth divides with floating point in the source (`/= 2`). The model floors, which gives the same result for the start value 4 and its half. It differs only for an odd value, and an odd value arises only from buys made after a game ended.
- Game.SnakeGame.BuyPurchase: defusing kills every bomb. The source removes dead bombs from the live set in the next `update`; the model removes them at once.
- Game.SnakeGame.StopGame: only the player's snake is killed among the entities. Food, coins and bombs are not modelled as entities. The source's `kill` calls back into `stopGame`, which changes nothing further, and that call is not modelled.
- Game.SnakeGame.OnPlayerCollide: the follow-up spawns after food (a new food, and a coin half the time) are random and left out.
- Game.SnakeGame.OnPlayerCollide: a bomb defused on contact leaves the live bombs at once. The source only kills it, and its `update` drops dead bombs after that tick's spawn and cap. So in a tick where the snake defuses a bomb while ten are live and an eleventh is due, the source evicts the oldest bomb and then sweeps the dead one, ending with nine, while the model ends with ten and keeps the oldest.
- The snake's `update` is left out: moving by one each tick, choosing images, and dying outside the background. Its parts are modelled as `Move`, `HeadHitsBody` and `IsInside`.
- ClassicSnake.Replay and ClassicSnake.ScoreCountsMeals: the first version restarts the snake when its head leaves the background or hits its body (snake.js:58-68 calls `spawnNewSnake`, snake.js:72-75, which puts a new five-part snake in place and so resets the score). The model covers only runs of ticks without a restart.
- ClassicSnake.Snake.MoveForward: requires at least two parts, because the source fails with fewer (snake.js:257-258 reads the head after popping the tail). Every snake the first version makes has five parts and only grows until it is restarted.
- js/util.js is not part of this model. It holds DOM helpers, random numbers and array creation.

## Findings

| source | as written | input that shows it | evidently intended | confidence | as-written member | corrected member |
|---|---|---|---|---|---|---|
| js/snake.js:1476-1477 | `add` records `items.length - 1` as the index, before the push | adding the first item to an empty heap records -1; `contains` then reports it absent | record the slot it is pushed to (`items.length` before the push) | high; not executed | HeapAsWritten.AddAsWritten, HeapAsWritten.AddAsWrittenMisrecords | Heaps.Heap.Add |
| js/snake.js:1512 | `sortUp` takes the parent index as `(heapIndex - 1) / 2` in floating point, and nothing stops it at the root | an item at slot 2 reads slot 0.5, which is empty, instead of slot 0; at the root it reads slot -0.5 | integer parent `(i - 1) / 2`, stopping at the root | high; not executed | HeapAsWritten.SortUpParentAsWritten, HeapAsWritten.SortUpParentAsWrittenIsFractional | Heaps.Heap.SortUp |
| js/snake.js:1532 | `childIndexRight = childIndexLeft++` makes the right child 2i+1 and the left 2i+2, and only "left < length" is tested | popping from items of cost 1, 2, 5 leaves [5, 2]: the only child, at slot 1, is never compared | children 2i+1 and 2i+2, the first tested against the length | high; not executed | HeapAsWritten.SortDownAsWritten, HeapAsWritten.PopFirstAsWrittenLeavesDisorder | Heaps.Heap.SortDown |
| js/snake.js:1545 | `sortDown` calls `Swap`, which is not defined | popping from items of cost 1, 2, 3, 9 needs an exchange and fails | call `this.swap` | high; not executed | HeapAsWritten.SortDownAsWritten, HeapAsWritten.PopFirstAsWrittenFailsOnExchange | Heaps.Heap.SortDown |
| js/snake.js:1494-1503 | `popFirst` pops the last item and writes it to slot 0 even when it was the only item | popping a one-item heap returns the item and leaves it in the heap | write the last item to the root only when items remain | high; not executed | HeapAsWritten.PopFirstAsWritten, HeapAsWritten.PopFirstAsWrittenNeverEmpties | Heaps.Heap.PopFirst |
| js/snake.js:1332-1342 | `Upgrade.buy` marks the upgrade bought and disabled after `super.buy()` whether or not the charge went through, and the click handler (js/snake.js:1313-1315) calls `buy` while the upgrade is disabled; `hasUpgrade` reads only the bought flag | a fresh game with 0 coins: clicking "Double Score" (price 15) grants it and charges nothing, so food then scores 2 | mark the upgrade bought only when the charge went through | high; not executed | Game.Upgrade.Buy, Game.FreeUpgradeAsWritten | Game.Upgrade.BuyCharged, Game.SnakeGame.BuyUpgrade, Game.FreeUpgradeRefused |
