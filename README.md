# Parking kiosk: slot stores and keypad state machine

A Dafny model of the core of a parking-garage kiosk. It has three parts.

- **The browser's fallback slot store** (`mock_store.dfy`, module `MockStore`). This is a module-level 5 × 10 grid of `{available, carNumber}` slots. `parkAt`, `findCar`, `exitCarByNumber`, `localGetGrid` and `resetGrid` use it when the network call throws.
  - The rules are first written as functions on grid values: `Park`, `Find` and `Exit`.
  - The `Store` class then runs them on a 5 × 10 `array2`. Each of its methods is proved to produce exactly what those functions say.
- **The backend's `ParkingStore`** (`parking_store.py` → `parking_store.dfy`, module `BackendStore`). It applies the same park and exit rules to a `rows × cols` grid, plus:
  - a `cars` map from car number to `{r, c, entry_time}`;
  - a fee of 2000 per started hour.

  Here too the rules are functions on a `Backend` value. The `ParkingStore` class, with its `array2` grid and its `cars` map, is proved to follow them. It also keeps the invariant `Indexed`: every recorded car points at an in-bounds slot occupied by that same number.
- **The kiosk screen** (`App.jsx` → `kiosk.dfy`, module `Kiosk`). React keeps five state fields per render: `carNumber`, `view`, `mode`, `selectedCarNumber` and `alertMessage`. Each handler computes the next render's values from the current ones. So each handler is modelled as a function from one `State` record to the next, and sequences of clicks as `Run` over a list of events.

`slots.dfy` (module `Slots`) holds what both stores share: the slot cell, grid values, cell-by-cell snapshots of an array, and the `R{r+1}-C{c+1}` label. `wrappers.dfy` holds `Option`, which stands for `null`/`None`.

Car numbers in the browser store have type `Option<string>`. Nothing stops `null` from reaching `parkAt` or `exitCarByNumber`. Also, `findCar(null)` matches the first slot whose `carNumber` is `null`, and the model keeps that. The backend gets its car numbers from `app.py` as `str`, so there they are plain `string`. Clock readings (`utcnow()`) are passed in as whole seconds (`now`).

The model follows the code as written:
- Neither store prevents one car number from occupying two slots. `MockStore.DuplicateParkExitsFirst` and `BackendStore.ReparkLeavesOrphanSlot` show this. So no uniqueness invariant is claimed.
- The browser store keeps no `isSeasonal` or entry time in its slots.
- Grid sizes are as written: 5 × 10 in the browser store; the constructor's arguments in the backend, which default to 5 × 10.

## Model

| member | source | states |
|---|---|---|
| Slots.LabelInjective | src/frontend/src/parkingMockStore.js:49 | distinct slots get distinct `R{r+1}-C{c+1}` labels, so a success message names exactly one slot |
| MockStore.Park | src/frontend/src/parkingMockStore.js:45-49 | out of bounds gives `{ok:false,'잘못된 위치'}` with the grid unchanged, checked before occupancy; an occupied slot gives `{ok:false,'이미 사용중'}` with the grid unchanged; ok holds exactly when the slot is in bounds and available; on success slot (r,c) becomes `{available:false, carNumber}`, the message is `주차 완료: R{r+1}-C{c+1}` and every other slot is unchanged |
| MockStore.Find | src/frontend/src/parkingMockStore.js:60-65 | the result is the first slot in row-major order whose carNumber equals the argument, or None when no slot holds it |
| MockStore.FirstMatchUnique | src/frontend/src/parkingMockStore.js:60-65 | only one answer satisfies "first match in row-major order", so the scan's answer is determined |
| MockStore.Exit | src/frontend/src/parkingMockStore.js:78-83 | ok holds exactly when some slot holds the number; otherwise `{ok:false,'해당 차량을 찾을 수 없습니다.'}` and nothing changes; on success only the first matching slot becomes `{available:true, carNumber:null}`, with message `출차 완료: R{r+1}-C{c+1}` |
| MockStore.ApplyKeepsConsistent | src/frontend/src/parkingMockStore.js:47-48 | a park carrying a number, an exit or a reset keeps "occupied ⇔ carNumber non-null" on every slot |
| MockStore.RunKeepsConsistent | src/frontend/src/parkingMockStore.js:5-7 | "occupied ⇔ carNumber non-null" holds after any sequence of park/exit/reset calls in which every park carries a number |
| MockStore.ParkThenExit | src/frontend/src/parkingMockStore.js:45-83 | parking a number that no slot holds and then exiting it succeeds with the message for that slot, frees exactly that slot, and restores a consistent grid |
| MockStore.FreshGridScenario | src/frontend/src/parkingMockStore.js:35-85 | on a fresh grid: park "1234" at (0,0) succeeds; parking "5678" there fails with '이미 사용중'; exiting "1234" succeeds and restores the grid; exiting it again fails with '해당 차량을 찾을 수 없습니다.' |
| MockStore.DuplicateParkExitsFirst | src/frontend/src/parkingMockStore.js:45-48 | the same number can be parked in two slots, and an exit frees only the first in row-major order |
| MockStore.Store.constructor | src/frontend/src/parkingMockStore.js:2-7 | the module-level grid starts as 5 × 10 slots, all `{available:true, carNumber:null}` |
| MockStore.Store.LocalGetGrid | src/frontend/src/parkingMockStore.js:21-23 | a 5 × 10 copy equal slot by slot to the grid, with no change to the store |
| MockStore.Store.ParkAt | src/frontend/src/parkingMockStore.js:43-50 | the outcome and the new grid are exactly those of `Park` on the old grid |
| MockStore.Store.FindCar | src/frontend/src/parkingMockStore.js:59-66 | the nested row/column scan returns exactly `Find` of the current grid |
| MockStore.Store.ExitCarByNumber | src/frontend/src/parkingMockStore.js:77-84 | the outcome and the new grid are exactly those of `Exit` on the old grid |
| MockStore.Store.ResetGrid | src/frontend/src/parkingMockStore.js:96-100 | the grid is rebound to a fresh array of 5 × 10 free slots, so earlier snapshots are unaffected |
| BackendStore.Init | src/backend/parking_store.py:5-11 | a rows × cols grid of `{available:True, carNumber:None}` slots and an empty `cars`, which satisfies the `Indexed` invariant |
| BackendStore.Park | src/backend/parking_store.py:20-29 | out of bounds gives `(False,'Invalid position')` with no change, checked first; an occupied slot gives `(False,'Spot already occupied')` with no change; ok holds exactly when the slot is in bounds and available; on success only slot (r,c) becomes occupied by the number, `cars[number]` becomes `{r, c, now}` and the message is `Parked at R{r+1}-C{c+1}` |
| BackendStore.ComputeFee | src/backend/parking_store.py:59-63 | hours ≥ 1; a stay of s ≤ 0 seconds is 1 hour; for s > 0, (hours−1)·3600 < s ≤ hours·3600; fee = 2000·hours |
| BackendStore.FeeMonotone | src/backend/parking_store.py:59-63 | a later exit never gives a smaller fee |
| BackendStore.Exit | src/backend/parking_store.py:34-57 | ok holds exactly when the number is in `cars`; otherwise `{ok:False,'Car not found'}` with no payment and no change; on success the slot recorded for the number is freed, the key is removed, the message is `Exited R{r+1}-C{c+1}` and the payment is the fee and hours of the stay |
| BackendStore.ParkKeepsIndexed | src/backend/parking_store.py:25-28 | a park keeps every `cars` entry pointing at an in-bounds slot occupied by its own number |
| BackendStore.ExitKeepsIndexed | src/backend/parking_store.py:44-47 | an exit keeps every remaining `cars` entry pointing at an in-bounds slot occupied by its own number |
| BackendStore.Steps | src/backend/parking_store.py:20-50 | after any sequence of park/exit calls from a state that keeps the invariant, every `cars` entry still points at an in-bounds slot occupied by its own number |
| BackendStore.ParkThenExit | src/backend/parking_store.py:20-57 | parking at a free slot and exiting the number later frees exactly that slot, drops the number from `cars` and bills the stay from park time to exit time; from a free slot and a number not in `cars`, the store returns to its earlier state |
| BackendStore.ReparkLeavesOrphanSlot | src/backend/parking_store.py:28 | re-parking a number overwrites its `cars` entry, and after one exit its first slot stays occupied with no entry left to free it |
| BackendStore.ParkingStore.constructor | src/backend/parking_store.py:5-11 | the store's state is `Init(rows, cols)`, with rows and cols defaulting to 5 and 10 |
| BackendStore.ParkingStore.GetGrid | src/backend/parking_store.py:16-18 | a rows × cols copy equal slot by slot to the grid |
| BackendStore.ParkingStore.ParkAt | src/backend/parking_store.py:20-29 | the reply and the new grid and `cars` are exactly those of `Park` on the old state; the invariant is kept |
| BackendStore.ParkingStore.FindCar | src/backend/parking_store.py:31-32 | `cars.get`: present exactly when the key is in `cars`, and then its entry |
| BackendStore.ParkingStore.ExitByNumber | src/backend/parking_store.py:34-57 | the reply and the new grid and `cars` are exactly those of `Exit` on the old state; the invariant is kept |
| BackendStore.ParkingStore.GetCarInfo | src/backend/parking_store.py:65-69 | None exactly when the number is not in `cars`; otherwise a copy of its entry, whose slot is in bounds and is occupied by that number |
| Kiosk.NumericKey | src/frontend/src/App.jsx:27-47 | 'clear' empties carNumber; 'delete' drops its last character and leaves '' as ''; 'confirm' below/above 4 characters only sets the alert '차량번호 4자리를 입력해주세요.'; 'confirm' at 4 characters in view 'input' moves the number to selectedCarNumber, clears it and shows 'grid', and in any other view changes nothing; any other key is appended only below 4 characters; mode never changes |
| Kiosk.KeypadPress | src/frontend/src/App.jsx:114-129 | the keypad's confirm key does nothing unless four digits are entered; every other key goes to the handler |
| Kiosk.LargeButton | src/frontend/src/App.jsx:49-60 | mode becomes the action; '입차' shows 'input' and clears selectedCarNumber; '출차' shows 'grid-exit' and clears carNumber; any other action changes only the mode |
| Kiosk.Back | src/frontend/src/App.jsx:148 | the view becomes 'home' and nothing else changes |
| Kiosk.Done | src/frontend/src/App.jsx:151-154 | the alert shows the message when it is a non-empty string, and the view returns to 'home' |
| Kiosk.CloseAlert | src/frontend/src/App.jsx:99 | the alert is cleared and nothing else changes |
| Kiosk.StepKeepsWellFormed | src/frontend/src/App.jsx:43-46 | one keypad key or other click keeps carNumber at most 4 characters, all digits |
| Kiosk.RunKeepsWellFormed | src/frontend/src/App.jsx:114-126 | any sequence of keypad presses ('0'–'9', delete, confirm) and other clicks keeps carNumber at most 4 digits |
| Kiosk.FromInitial | src/frontend/src/App.jsx:20-24 | from the initial state, carNumber is always at most 4 characters, all '0'–'9' |
| Kiosk.DeleteUndoesDigit | src/frontend/src/App.jsx:30-31 | under the cap, 'delete' right after a digit gives back the earlier state |
| Kiosk.TypingAppends | src/frontend/src/App.jsx:43-45 | typing digits that fit within 4 characters appends them in order |
| Kiosk.EnterFlow | src/frontend/src/App.jsx:38-54 | '입차', four digits and confirm open the park grid for exactly that number, with the display cleared |

## Left out

- MockStore.Store.ExitCarByNumber: looks the car up with the local scan, as if the request inside the exported `findCar` (parkingMockStore.js:54-58) also throws; a reply to that request, which decides the freed slot or turns a non-OK reply into '해당 차량을 찾을 수 없습니다.', is not modelled.
- The `fetch` branches and `API_BASE` in the browser store, and the Flask routes in `app.py`. These are HTTP transport; only the local fallback is modelled.
- `seasonalCheck`: its fallback is the constant `{ok:false}` and it touches no state. The registry it queries is not part of this model.
- The `isSeasonal` argument of `parkAt`: it is accepted and never stored.
- Wall-clock time, ISO formatting and parsing. Entry and exit times are whole seconds passed in as parameters.
- BackendStore.ComputeFee: takes the stay as whole seconds, while Python's `total_seconds()` is a float; fractional seconds are not modelled.
- BackendStore.ParkingStore.FindCar: returns the entry as a value; Python returns the dictionary object itself, so mutation through that alias is not modelled.
- `ParkingGrid.jsx`: rendering, polling, timers, modals and its thin availability guards that sit on top of the store.
- Rendering, CSS and the digit display of `App.jsx`.
- Kiosk.Done: the 900 ms `setTimeout` before returning home is taken as immediate.
- Kiosk event sequences let any click happen in any view. The real screen only renders the keypad in the input views, the large buttons on 'home' and `onBack` on the grid. The invariants proved hold for this larger set of sequences.
- `carNumber.length` counts UTF-16 code units in JavaScript and characters here; the two agree on the keypad's digits.
- Backend `rows`/`cols` are natural numbers; Python's empty grid for negative sizes is not modelled. Non-integer `r`/`c` arguments are not modelled in either store.
