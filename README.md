# toy order-book rebuilder, modelled in Dafny

The repository replays a market-data file of order events and rebuilds a
limit-order book per instrument. This project models its sequential core:

- **the entity arena** (`reference::container<T>`). It is a get-or-create table
  addressed by splitting a 32-bit id into bucket, slot and item fields.
  Buckets and slots are allocated on first touch. Records are built in place
  and destroyed back to the sentinel id. The model is `Arena.Container`, a
  class whose state is a map from bucket to slot to a sequence of records. The
  id width is a parameter (`q` is a quarter of it).
- **the order, trade, action and side records** (`Records`).
- **the file feeder** (`Feeder.FeederFile`, `Fields`, `Lifecycle`):
  - the field parsers are methods with loops, proved against parse functions;
  - the per-order reconciliation of new, cancel and amend messages with the
    order's record is a set of pure steps;
  - the handlers retrieve the record, run the step and write it back;
  - trades are numbered from 1.
- **the price-level book** (`Books.Book`, `Levels`). Each side is a strictly
  ordered sequence of price levels: bids descending, asks ascending. This is
  the iteration order of the `std::map` it models, and every operation is
  stated against the map view (`ToMap`). The class also has the `verify` scan
  and the `try_extract` snapshot.
- **the snapshot** (`Markets.Market`). It has a fixed number of rows.
- **the book manager** (`Managers.Manager`). It forwards each notification to
  the instrument's book and decides when `update` checks a book and refreshes
  its market. A ghost `owner` map records which instrument each book, market
  and market row belongs to. This proves that a notification for one
  instrument changes no other instrument.

Prices are integer ticks. Each handler takes the price that the price parser
would read from the rest of the line. `HandleLine` dispatches on `ActField`,
the function that `ExtractAct` is proved to compute. `HandleExe` likewise reads
its fields with `ParseExe`, the function that `ReadExe` is proved to compute.

The model reproduces the source's behaviour where it departs from its
evident intent:

- a capacity of `max >> (digits - k)` is 2^k - 1, so a field holding its
  largest value lies past the end of its array; the model turns every such
  access into a fault;
- `verify` never advances its ask cursor;
- `update` calls `verify(tolerance / 2, max_lev)` while `verify`'s parameters
  are `(max_lev, tolerance)`;
- a new message with a non-positive price removes the order's record;
- an amend accepts a quantity of zero.

Lemmas pin each of these down (`CapacityIsOneShort`, `SecondAskLevelUnchecked`,
`SwappedVerifyPublishesBrokenBook`, `AmendAcceptsZeroQty`, and the contract of
`DropOrder`).

## Outcomes and faults

| source behaviour | model |
|---|---|
| a null pointer dereference, a failed `assert`, or `std::array::at` out of range (each ends the process); an unchecked `operator[]` past the end of an arena array (undefined behaviour, treated as if it ended the process) | a `Fault` handle from the arena, `Crash` in the feeder and `Crashed` in the manager |
| logged errors | `Rejected(error)` |
| silent updates | `Applied` |
| notifications | `Published(event)`, carrying the record as published |

## Model

| member | source | states |
|---|---|---|
| Records.SideCode | include/reference/order.hpp:17-19 | buy is 0, sell is 1, MAX is 2; `SideOf` maps each code back to its side |
| Records.ActionCode | include/reference/order.hpp:13-15 | the action codes are 'N', 'R', 'M', 'X' and 'Z'; `ActionOf` maps each code back to its action |
| Records.DefaultOrder | include/reference/order.hpp:21-33 | the default order carries the sentinel id 0xFFFFFFFF and zero quantity, booked and cancelled counters |
| Records.NewOrder | include/reference/order.hpp:29-34 | `order(id)` carries `id` with the three counters at zero, and is the default order otherwise |
| Records.DestroyOrder | include/reference/order.hpp:35-38 | `~order` resets the id to the sentinel and the three counters to zero, and keeps the other fields |
| Records.DefaultTrade | include/reference/order.hpp:43-52 | the default trade carries the sentinel id |
| Records.NewTrade | include/reference/order.hpp:53 | `trade(id)` is the default trade with id `id` |
| Records.DestroyTrade | include/reference/order.hpp:54-56 | `~trade` resets only the id to the sentinel |
| Arena.CapacityIsOneShort | include/reference/container.hpp:20-22 | a capacity computed as `max >> (digits - k)` is 2^k - 1, not 2^k |
| Arena.ThirtyTwoBitCapacities | include/reference/container.hpp:16-22 | on 32-bit ids there are 65535 buckets and 255 slots and items; id 255 has item field 255 and is not addressable, while id 254 is |
| Arena.ThirtyTwoBitIds | include/reference/order.hpp:22-23 | on 32-bit ids the largest id, which is the sentinel, is 0xFFFFFFFF |
| Arena.JoinSplit | include/reference/container.hpp:28-35 | writing an id's three fields back gives the id, and each field fits its width |
| Arena.SplitJoin | include/reference/container.hpp:28-35 | splitting the id made from three in-width fields gives those fields |
| Arena.DistinctIdsDistinctCells | include/reference/container.hpp:28-35 | distinct ids address distinct cells |
| Arena.OnlyIdAtItsAddress | include/reference/container.hpp:28-35 | no other id shares an id's address |
| Arena.SentinelNotAddressable | include/reference/container.hpp:20-35 | the sentinel's item field is one past the end of a slot, so the sentinel is never addressable |
| Arena.Container.constructor | include/reference/container.hpp:130-131 | the table starts with no bucket, and every cell reads as the default record |
| Arena.Container.LiveCellCarriesItsId | include/reference/container.hpp:62-74 | a live record carries the id of the cell that holds it |
| Arena.Container.AddBucket | include/reference/container.hpp:118-120 | allocating a bucket adds it with no slot, changes no cell's record and keeps every allocated slot |
| Arena.Container.AddSlot | include/reference/container.hpp:123-125 | allocating a slot of sentinel records changes no cell's record and keeps every allocated slot |
| Arena.Container.RetrieveSlot | include/reference/container.hpp:111-128 | null exactly for the sentinel, with nothing allocated; a fault exactly when the bucket or slot field is past the end; otherwise the slot is allocated; no record changes |
| Arena.Container.Create | include/reference/container.hpp:50-63 | null for the sentinel (nothing allocated) and for a live cell (left as it was); a fault for a field past the end; otherwise the cell holds `T(id)` and that is returned; other cells unchanged |
| Arena.Container.Retrieve | include/reference/container.hpp:65-78 | null exactly for the sentinel; a fault exactly for a non-addressable id; otherwise returns the live record untouched, or `T(id)` built in an empty cell; other cells unchanged |
| Arena.Container.Find | include/reference/container.hpp:89-108 | allocates and changes nothing; faults exactly when an access runs past an allocated level; returns the record exactly when it is live, and that record carries `id` |
| Arena.Container.FindTwice | include/reference/container.hpp:89-108 | two finds of one id with nothing in between return equal results |
| Arena.Container.Remove | include/reference/container.hpp:80-87 | a live record is destroyed in place, after which the cell is empty; an empty cell is left alone; it faults as `find` does; no allocation and no other cell changes |
| Arena.Container.Put | src/feed/feeder_file.hpp:235-241 | a write through the pointer the arena handed out: the cell holds the new record and no other cell or allocation changes |
| Fields.SkipSpaces | src/feed/feeder_file.hpp:26-30 | the cursor stops at the first non-space at or after `i`, past only spaces |
| Fields.DigitsEnd | src/feed/feeder_file.hpp:49-52 | the digit loop stops at the first non-digit, past only digits |
| Fields.Accumulated | src/feed/feeder_file.hpp:48-52 | the unsigned 32-bit accumulator stays below 2^32 |
| Fields.AccumulatedIsValueMod | src/feed/feeder_file.hpp:48-52 | the accumulator holds the exact decimal value of the digits modulo 2^32 |
| Fields.Trim | src/feed/feeder_file.hpp:26-30 | the `trim` loop leaves the cursor where `SkipSpaces` says |
| Fields.ExtractUint | src/feed/feeder_file.hpp:46-61 | the loop computes `UintField`: the digits' value and the cursor past the delimiter when the delimiter follows, else -1; the value is -1 or below 2^32 |
| Fields.UintFieldOfDecimal | src/feed/feeder_file.hpp:46-61 | a number printed in decimal and followed by the delimiter reads back modulo 2^32, with the cursor just past the delimiter |
| Fields.UintFieldOfEmptyRun | src/feed/feeder_file.hpp:46-61 | a field with no digits before the delimiter reads as 0 |
| Fields.UintFieldWithoutDelimiter | src/feed/feeder_file.hpp:55-57 | digits followed by another character read as -1 |
| Fields.ExtractSide | src/feed/feeder_file.hpp:63-81 | the side parser computes `SideField`: one character, then a ',' after spaces |
| Fields.SideFieldOfSideChar | src/feed/feeder_file.hpp:63-81 | 'B' reads as buy and 'S' as sell when a ',' follows |
| Fields.SideFieldOtherwise | src/feed/feeder_file.hpp:63-81 | any other character, or a missing ',', reads as MAX |
| Fields.ExtractAct | src/feed/feeder_file.hpp:32-44 | the action parser computes `ActField`: one character as the code when a ',' follows after spaces, otherwise MAX |
| Fields.ActFieldOfActionCode | src/feed/feeder_file.hpp:32-44 | an action written as its code and followed by ',' reads back as that action |
| Lifecycle.VerifyBooked | src/feed/feeder_file.hpp:389-407 | tolerant mode always passes; strict mode passes exactly when side and price match; a side mismatch is reported before a price mismatch |
| Lifecycle.Poison | src/feed/feeder_file.hpp:394-403 | a failed verification sets the quantity to -1 and changes nothing else |
| Lifecycle.AddStep | src/feed/feeder_file.hpp:212-246 | duplicate and corrupted records are rejected unchanged; `can_qty > qty` or `book_qty > qty` poisons; otherwise the add is published exactly when the record as the new message sets it (`Fresh`) passes verification, and a failed verification rejects with its error and poisons that record; on publication the quantity and instrument are set, side, price and booked quantity are set only on an untouched record, and the add carries the record; it never applies silently |
| Lifecycle.CanStep | src/feed/feeder_file.hpp:274-300 | a second cancel is a duplicate, checked before corruption; before the new message the cancel is recorded silently exactly when the record, with side and price adopted if untouched, passes verification; a failed verification rejects with its error and poisons the record; the cancel is published, with its quantity, exactly when the order is live and passes verification; the booked quantity never changes |
| Lifecycle.AmendedBook | src/feed/feeder_file.hpp:342-348 | a positive booked quantity becomes the smaller of it and the new quantity; an empty one becomes the new quantity |
| Lifecycle.AmdStep | src/feed/feeder_file.hpp:328-351 | a corrupted record is rejected unchanged; before the new message the amend is recorded silently exactly when the record, with side and price adopted if untouched, passes verification; a failed verification rejects with its error and poisons the record; it is published, with the old booked quantity, exactly when the order is live and passes verification; a positive booked quantity never rises |
| Lifecycle.ExeTrade | src/feed/feeder_file.hpp:373-377 | the trade carries the trade id, instrument, quantity and price, and side MAX |
| Lifecycle.PoisonIsAbsorbing | src/feed/feeder_file.hpp:218-221 | a poisoned record stays as it is under any new, cancel or amend message |
| Lifecycle.AddMeetsManagerPreconditions | include/order_book/manager.hpp:25-27 | every published add meets the manager's asserts `qty > 0`, `qty >= book_qty` and `qty >= can_qty` |
| Lifecycle.TolerantNeverInconsistent | src/feed/feeder_file.hpp:389-392 | in tolerant mode no step reports an inconsistent side or price |
| Lifecycle.StrictSideMismatchPoisons | src/feed/feeder_file.hpp:394-398 | in strict mode a cancel or amend on the wrong side poisons a live order |
| Lifecycle.OnlyAddAssignsQty | src/feed/feeder_file.hpp:236 | cancel and amend leave the quantity as it was or poison it |
| Lifecycle.SecondAddIsDuplicate | src/feed/feeder_file.hpp:214-217 | a second new message for a published order is a duplicate and changes nothing |
| Lifecycle.CancelBeforeNew | src/feed/feeder_file.hpp:284-294 | a cancel before the new message is recorded silently; the following new message publishes an add with the cancel recorded and nothing booked, or poisons when its quantity is below the cancel |
| Lifecycle.AmendBeforeNew | src/feed/feeder_file.hpp:334-344 | an amend before the new message records the booked quantity; the following new message keeps it, books the full quantity after an amend to zero, or poisons when it is smaller |
| Lifecycle.AmendsNeverRaise | src/feed/feeder_file.hpp:346-348 | a run of positive amends never raises a positive booked quantity, nor empties it |
| Lifecycle.AmendAfterEmptyingSetsBook | src/feed/feeder_file.hpp:348 | after an amend to zero, the next amend sets the booked quantity outright |
| Levels.Lookup | include/order_book/book.hpp:136-137 | `find` returns a value exactly when the level exists, and that value is the level's quantity |
| Levels.Upsert | include/order_book/book.hpp:138-141 | the side stays ordered and its map is the old map with `prc` set to `qty` |
| Levels.Erase | include/order_book/book.hpp:165-172 | the side stays ordered and its map is the old map without `prc` |
| Levels.LevelAdd | include/order_book/book.hpp:134-143 | only level `prc` changes, and it exists afterwards holding its old quantity (zero if missing) plus `qty`, even when that sum is zero |
| Levels.LevelCan | include/order_book/book.hpp:145-177 | only level `prc` changes: erased when it held exactly `qty`, otherwise it holds its old quantity (zero if missing) minus `qty` |
| Levels.LevelAmd | include/order_book/book.hpp:156-167 | a missing level leaves the side as it is; otherwise only level `prc` changes: it is reduced by `qty` and erased exactly when that leaves zero |
| Levels.CanAndAmdDifferOnlyOnMissingLevel | include/order_book/book.hpp:145-167 | cancel and amend agree on an existing level; on a missing one amend does nothing while cancel inserts `-qty` |
| Levels.AddThenCancel | include/order_book/book.hpp:134-177 | cancelling what was just added restores the side, except that a level left at exactly zero is erased |
| Levels.FirstIsLeast | include/order_book/book.hpp:193-205 | the first level of an ordered side is its best price |
| Levels.OrderedIsMapOrder | include/order_book/book.hpp:193-205 | two ordered sides with the same map are the same sequence, so the sequence is the map's iteration order |
| Levels.PositivesComplete | include/order_book/book.hpp:179-188 | every level with a positive quantity is among those the `find_best` scan stops at, so none is skipped |
| Levels.PositivesOrdered | include/order_book/book.hpp:193-205 | the positive levels keep the side's order |
| Levels.NextPositive | include/order_book/book.hpp:179-188 | a `find_best` scan step from the cursor reaches the next positive level or the end |
| Markets.Market.constructor | include/reference/market.hpp:23 | the market has `max_lev` rows, all empty, and keeps its instrument id |
| Markets.Market.Find | include/reference/market.hpp:46-51 | a row in range, and the empty row at or past the size |
| Markets.Market.BidQty | include/reference/market.hpp:31 | zero at or past the size |
| Markets.Market.BidPrc | include/reference/market.hpp:32 | zero at or past the size |
| Markets.Market.AskQty | include/reference/market.hpp:33 | zero at or past the size |
| Markets.Market.AskPrc | include/reference/market.hpp:34 | zero at or past the size |
| Markets.Market.Fill | include/reference/market.hpp:36-39 | requires `lev` in range, replaces row `lev` and changes no other row |
| Markets.Market.FillLast | include/reference/market.hpp:41-44 | records the last execution, leaving the rows untouched |
| Books.Wrap32 | include/order_book/book.hpp:124-131 | converting to `int32_t` gives a 32-bit value congruent modulo 2^32, and the value itself when it fits |
| Books.ComplainsOnlyWhenIntended | include/order_book/book.hpp:28-45 | every complaint `verify` raises is one that a scan of the first `max_lev` levels of both sides would raise |
| Books.SecondAskLevelUnchecked | include/order_book/book.hpp:38-44 | a non-positive second ask level goes unnoticed, whatever depth is scanned |
| Books.SnapshotRowsAreBookLevels | include/order_book/book.hpp:62-81 | each filled row side is a positive level of the book with its quantity; the filled rows come first; an unfilled side of a row is zero |
| Books.SnapshotBestFirst | include/order_book/book.hpp:62-81 | down the filled rows bid prices fall and ask prices rise |
| Books.SnapshotUncrossed | include/order_book/book.hpp:52-60 | in a book that is not crossed, every bid price in the snapshot lies below every ask price |
| Books.BookAdd | include/order_book/book.hpp:88-98 | counts one event; adds `qty` at `prc` on the named side; an unknown side touches no level |
| Books.BookCan | include/order_book/book.hpp:100-110 | counts one event; the named side's map is the cancel's; an unknown side touches no level |
| Books.BookAmd | include/order_book/book.hpp:112-122 | counts one event; the named side's map is the amend's; an unknown side touches no level |
| Books.BookExe | include/order_book/book.hpp:124-131 | counts one event and records the execution, its quantity truncated to 32 bits; no level changes |
| Books.AddThenCancelRestoresBook | include/order_book/book.hpp:88-110 | an add then a cancel of the same quantity gives the book back, two events later, unless the level had been left at exactly zero |
| Books.Book.constructor | include/order_book/book.hpp:19 | a new book is empty, with `_times` and the last execution at zero |
| Books.Book.Add | include/order_book/book.hpp:88-98 | the new state is `BookAdd` of the old one, and the returned count is the new `_times` |
| Books.Book.Can | include/order_book/book.hpp:100-110 | the new state is `BookCan` of the old one, and the returned count is the new `_times` |
| Books.Book.Amd | include/order_book/book.hpp:112-122 | the new state is `BookAmd` of the old one, and the returned count is the new `_times` |
| Books.Book.Exe | include/order_book/book.hpp:124-131 | the new state is `BookExe` of the old one, and the returned count is the new `_times` |
| Books.Book.Verify | include/order_book/book.hpp:21-47 | passes exactly when `_times <= tolerance` or the scan finds no non-positive level among the first `max_lev` bids or the first ask; resets `_times` exactly when it fails, with no other change |
| Books.Book.FindBest | include/order_book/book.hpp:179-188 | returns the first positive level at or after the cursor, or the end |
| Books.Book.NextLevel | include/order_book/book.hpp:66-78 | with `i` rows written, yields the side's `i`-th positive level, or zeros once they are used up, and advances the cursor past it |
| Books.Book.BestLevels | include/order_book/book.hpp:52-60 | reports crossed exactly when both sides have a positive level and the best bid is at or above the best ask |
| Books.Book.WriteRows | include/order_book/book.hpp:62-81 | the market's rows become the snapshot of the book's positive levels, best first, one per row, then zeros |
| Books.Book.TryExtract | include/order_book/book.hpp:49-85 | refuses exactly a crossed book, changing nothing; otherwise writes the last execution and the snapshot into the market and resets `_times` |
| Managers.UpdateVerdict | include/order_book/manager.hpp:83-97 | nothing happens before `interval` events; a complaint exactly when the swapped `verify` fails; a publication only for a book that is not crossed |
| Managers.SwappedVerifySkipsShallowCounts | include/order_book/manager.hpp:91 | with the swapped arguments no complaint is raised while the count is at most the depth |
| Managers.SwappedVerifyPublishesBrokenBook | include/order_book/manager.hpp:91 | a book holding a negative bid level is published under the swapped arguments and refused under `verify`'s own order |
| Managers.Manager.constructor | include/order_book/manager.hpp:19-21 | the configuration is kept, and every instrument starts with an empty book and an empty market |
| Managers.Manager.Construct | include/order_book/instrument.hpp:21-22 | `instrument(id, max_lev)` creates a new empty book and a new market of `max_lev` empty rows, both carrying the id |
| Managers.Manager.Build | include/order_book/manager.hpp:31 | a freshly retrieved cell now holds a built instrument with an empty book and market; other cells are unchanged |
| Managers.Manager.Fetch | include/order_book/manager.hpp:31 | the arena's `retrieve` on the instrument table: null exactly for the sentinel, a fault exactly for a non-addressable id, a live instrument returned as it was, and otherwise the unbuilt one |
| Managers.Manager.Obtain | include/order_book/manager.hpp:31-34 | the instrument returned is live and built, built on first touch; its book and market read as before; no other cell changes |
| Managers.Manager.Acquire | include/order_book/manager.hpp:31-34 | as `Obtain`, and no other instrument's book or market changes |
| Managers.Manager.Update | include/order_book/manager.hpp:83-100 | the verdict is `UpdateVerdict` on the book; a complaint or a refresh resets the count; only a refresh writes the market, with the book's snapshot and last execution |
| Managers.Manager.Deliver | include/order_book/manager.hpp:36-40 | the book becomes the notification applied to it; `update` runs exactly if asked; no other instrument changes |
| Managers.Manager.Add | include/order_book/manager.hpp:24-41 | crashes exactly for an id the arena cannot hold; otherwise adds `qty - can_qty` to the book, running `update` exactly when nothing was cancelled; no other instrument changes |
| Managers.Manager.Can | include/order_book/manager.hpp:43-53 | crashes exactly when `find` does not return the instrument; otherwise takes the cancel quantity off the book, running `update` exactly when `can_qty == book_qty`; no other instrument changes |
| Managers.Manager.Amd | include/order_book/manager.hpp:55-64 | crashes exactly when `find` does not return the instrument; otherwise amends the book by `old_book - book_qty` and always runs `update`; no other instrument changes |
| Managers.Manager.Exe | include/order_book/manager.hpp:66-80 | an unknown instrument changes nothing; otherwise the execution is recorded in the book and `update` does not run; no other instrument changes |
| Feeder.ParseOrderMsg | src/feed/feeder_file.hpp:249-266 | a parsed cancel or amend has a positive id, a known side and a quantity of at least the minimum; otherwise the first bad field's error |
| Feeder.ParseNew | src/feed/feeder_file.hpp:180-203 | a parsed new message has a positive instrument, id and quantity, each below 2^32, and a known side |
| Feeder.ParseExe | src/feed/feeder_file.hpp:354-365 | a parsed execution has a positive instrument and quantity; otherwise an illegal instrument or quantity |
| Feeder.AmendAcceptsZeroQty | src/feed/feeder_file.hpp:316-320 | an amend accepts a zero quantity that a cancel rejects |
| Feeder.CancelAndAmendFieldsAgree | src/feed/feeder_file.hpp:262-266 | apart from a zero quantity, cancel and amend fields parse alike |
| Feeder.FeederFile.constructor | src/feed/feeder_file.hpp:116-117 | both arenas start empty and the first trade id is 1 |
| Feeder.FeederFile.VerifyBookedOrder | src/feed/feeder_file.hpp:389-407 | returns `VerifyBooked`'s verdict; a pass leaves the record as it was, a mismatch poisons it |
| Feeder.FeederFile.ReadNew | src/feed/feeder_file.hpp:181-203 | the field extraction of `handle_add` computes `ParseNew` |
| Feeder.FeederFile.ReadOrderMsg | src/feed/feeder_file.hpp:250-266 | the field extraction of `handle_can` and `handle_amd` computes `ParseOrderMsg` |
| Feeder.FeederFile.HandleAdd | src/feed/feeder_file.hpp:180-247 | a malformed field is rejected with no change; a non-positive price removes the record; otherwise the retrieved record goes through the new message's step and is written back |
| Feeder.FeederFile.DropOrder | src/feed/feeder_file.hpp:205-210 | the record is destroyed if live and left alone if empty; the outcome is an illegal price, or a crash where `remove` faults |
| Feeder.FeederFile.AddOrder | src/feed/feeder_file.hpp:212-246 | the record `retrieve` hands out goes through `AddStep` and is written back; the sentinel id crashes; no other order changes |
| Feeder.FeederFile.AddRecord | src/feed/feeder_file.hpp:214-246 | the checks and updates on the record compute `AddStep` |
| Feeder.FeederFile.HandleCan | src/feed/feeder_file.hpp:249-301 | a malformed field or a non-positive price is rejected with no change; otherwise the retrieved record goes through the cancel message's step |
| Feeder.FeederFile.CancelOrder | src/feed/feeder_file.hpp:274-300 | the record `retrieve` hands out goes through `CanStep` and is written back; the sentinel id crashes; no other order changes |
| Feeder.FeederFile.CancelRecord | src/feed/feeder_file.hpp:275-300 | the checks and updates on the record compute `CanStep` |
| Feeder.FeederFile.HandleAmd | src/feed/feeder_file.hpp:303-352 | a malformed field or a non-positive price is rejected with no change, and a zero quantity is accepted; otherwise the retrieved record goes through the amend message's step |
| Feeder.FeederFile.AmendOrder | src/feed/feeder_file.hpp:328-351 | the record `retrieve` hands out goes through `AmdStep` and is written back; the sentinel id crashes; no other order changes |
| Feeder.FeederFile.AmendRecord | src/feed/feeder_file.hpp:329-351 | the checks and updates on the record compute `AmdStep` |
| Feeder.FeederFile.ReadExe | src/feed/feeder_file.hpp:355-365 | the field extraction of `handle_exe` computes `ParseExe` |
| Feeder.FeederFile.HandleExe | src/feed/feeder_file.hpp:354-380 | a malformed field or a non-positive price is rejected with no change; otherwise the trade counter advances (wrapping at 2^32), and the trade with the old counter as id and side MAX is created and published; orders are untouched |
| Feeder.FeederFile.CreateTrade | src/feed/feeder_file.hpp:373-379 | `create(_tid++)`: a crash when the id is not addressable or its cell is taken; otherwise the trade is stored and published; no other trade changes |
| Feeder.FeederFile.HandleLine | src/feed/feeder_file.hpp:150-157 | dispatches on the action field to the handler of that action, touching only what that handler touches; an unknown action is rejected with no change |

## Left out

- `extract_prc` and the 1e-6 price tolerance of `verify_booked_order` are floating point. Prices are integer ticks, handlers take the parsed price as a parameter, and the tolerance becomes equality.
- `start`, `stop` and `handle_comment` are not modelled: the reader thread, the file stream, the line loop, the `_stop` flag, `SIGTERM_handler` and comment logging are I/O and concurrency. `HandleLine` takes one line that is neither empty nor a comment.
- The observer broadcast through member-function pointers (`feeder.hpp`, `observer.hpp`) is not modelled. Handlers return the notification, and the manager's methods take the record it carries.
- Logging has no effect in the model, so rejections are results.
- The container's destructor releases memory, which the model does not track.
- instrument.hpp's `unique_ptr` ownership and move/swap are not modelled. An instrument is a record of its id, book and market, built by `Construct`.
- The checks main.cpp makes on the configuration are the manager constructor's preconditions.
- to_string.cpp is stream formatting and is not modelled.
- The market's `iid`, `last_qty` and `last_prc` getters are plain reads of fields the model exposes directly.
- Books.Book.Add, Books.Book.Can, Books.Book.Amd, Books.Book.Exe: `_times` is an `int32_t` and the model's count is unbounded, so its overflow after 2^31 events is not modelled.
- Books.BookAdd: level quantities are `int64_t` sums and the model's are unbounded, so their overflow is not modelled.
- The quantities of a snapshot row (`level`) are `uint64_t` and are modelled as integers. The model writes only positive quantities and zeros into them.
- The fields of `order` and `trade` that have no default initialiser (instrument, side, price, trade `oid`) are modelled as zero and buy (MAX for a trade).
- Reading a C string past its end yields its terminating NUL. `Fields.At` reads `'\0'` past the end of the sequence.
- Arena.Container.RetrieveSlot, Arena.Container.Find: `retrieve_slot` and `find` index `_buckets` and a bucket with unchecked `operator[]`, so a bucket or slot field past the end is undefined behaviour, not a guaranteed termination; the model treats it as a `Fault`.
- Arena.Container.Remove returns whether it ran, while the source's `remove` returns nothing; `false` stands for the out-of-range access it faults on.
