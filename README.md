# Device-status renderer

A Dafny model of the device-status renderer of the `gd_devices` page
(`src/ts/api.ts`). The page fetches a JSON payload of sheets and walks every
child of every sheet as a device record. For each record it looks up the page
element whose id is the lower-cased "Device Name". When that element exists,
the renderer creates its `status-info` block if there is none (otherwise it
reuses the block), clears it, and writes a `Status: …` line coloured by the
status. When the record's `Info` is present and not empty, it adds an
`Info: …` line. When the fetch or the rendering fails, a red "Failed to load
device data." paragraph is appended to `main`.

Modules:

- `Wrappers` (`wrappers.dfy`): `Option`.
- `Types` (`types.dfy`): the payload shapes of `src/ts/types.ts`: `Device`,
  `MonitorSlot`, `SheetData`, `ApiResponse`. A sheet child is a `Row`. It is
  either a device row or a monitor-slot row, which carries no "Device Name".
- `StatusColors` (`status_colors.dfy`): ASCII lower-casing and `GetStatusColor`.
- `DeviceRender` (`device_render.dfy`): the page elements as values and the
  meaning of one rendering pass, as functions with lemmas:
  - an element is its sequence of child nodes;
  - `querySelector(".status-info")` is the first `StatusInfo` node;
  - `Write` renders one record into one element;
  - `Apply` renders a sequence of records;
  - `Processed` gives the records a pass gets through before a child throws.
- `Api` (`api.dfy`): the class `Page`, which holds the elements by id and the
  optional `main` element. Its methods `UpdateDeviceStatus`,
  `DisplayGlobalError` and `FetchAndUpdateDevices` change the page in place.
  `UpdateDeviceStatus` runs the two nested `forEach` loops of
  `updateDeviceStatus` and is proved equal to
  `Apply(old(elements), Processed(Rows(data)))`.

What the code does, and the model with it:

- `updateDeviceStatus` looks up no container element; it reads every child
  of every sheet as a device, whatever the sheet's `sheetName`.
- A child without a "Device Name" makes `toLowerCase` throw a `TypeError`.
  The pass stops there. The records rendered before it stay rendered. The
  catch in `fetchAndUpdateDevices` then appends the load-failure message. So a
  failure can leave the page partly rendered.
- A non-OK response and an unparsable body both render no device and append
  the one message.

## Model

| member | source | states |
|---|---|---|
| StatusColors.GetStatusColor | src/ts/api.ts:73-84 | the default colour black is chosen exactly when the lower-cased status is none of "up", "down", "under maintenance" |
| StatusColors.ColourCases | src/ts/api.ts:74-82 | green, red and orange are chosen exactly for "up", "down" and "under maintenance" in any letter case; every other status is black, so the mapping is total |
| StatusColors.ColourIgnoresCase | src/ts/api.ts:74 | two statuses that differ only in letter case get the same colour |
| StatusColors.ColourOfLowered | src/ts/api.ts:74 | lower-casing a status beforehand does not change its colour |
| StatusColors.Lower | src/ts/api.ts:38 | `toLowerCase` keeps the length of the string (ASCII letters only, see below) |
| StatusColors.LowerIsLowerCase | src/ts/api.ts:74 | `toLowerCase` lower-cases each character on its own and leaves no upper-case ASCII letter |
| StatusColors.ColourCss | src/ts/api.ts:75-82 | the CSS names set on the status line are "green", "red", "orange" and "black", each for exactly the statuses the switch sends to it |
| StatusColors.ExampleColours | src/ts/api.ts:75-82 | "UP", "Up" and "up" are green, "Down" is red, "Under Maintenance" is orange, "offline" and "" are black |
| DeviceRender.KeyIsLowered | src/ts/api.ts:38 | a record's lookup key matches its "Device Name" ignoring case and has no upper-case ASCII letter |
| DeviceRender.Targets | src/ts/api.ts:39-41 | an id finds an element only when the page holds it, and `getElementById("")` finds none |
| DeviceRender.StatusLines | src/ts/api.ts:54-65 | the lines written for a record: a `status` line `Status: <Status>` coloured by the status, then one `info` line `Info: <Info>` exactly when Info is present and non-empty |
| DeviceRender.FirstBlock | src/ts/api.ts:42-44 | `querySelector(".status-info")` finds a block exactly when the element has a `StatusInfo` child, and what it finds is one of those blocks (see Left out) |
| DeviceRender.Write | src/ts/api.ts:42-65 | rendering a record into an element puts the record's lines at the block's position; the element grows by one node only when it had no block; every other node stays |
| DeviceRender.BlockIndex | src/ts/api.ts:42-44 | the block found is the first `StatusInfo` child; none comes before it (see Left out) |
| DeviceRender.WriteCreatesBlock | src/ts/api.ts:46-50 | an element without a block gets one new block, appended after all its existing content |
| DeviceRender.WriteReusesBlock | src/ts/api.ts:42-52 | an element with a block keeps its length; only that block changes and it keeps its position |
| DeviceRender.WriteShowsRecord | src/ts/api.ts:52-65 | after rendering, the block holds exactly the `Status: <Status>` line coloured by the status, followed by `Info: <Info>` if and only if Info is present and non-empty; no earlier line survives |
| DeviceRender.WriteKeepsOneBlock | src/ts/api.ts:42-50 | an element with at most one block has exactly one after rendering |
| DeviceRender.WriteTwice | src/ts/api.ts:46-52 | rendering two records in turn into an element equals rendering the second alone |
| DeviceRender.Step | src/ts/api.ts:38-41 | one record never adds or removes an element id |
| DeviceRender.Apply | src/ts/api.ts:36-37 | a pass never adds or removes an element id |
| DeviceRender.RowsMembers | src/ts/api.ts:36-37 | the rows walked are exactly the children of the sheets |
| DeviceRender.Halts | src/ts/api.ts:38 | a pass throws exactly when it processes fewer records than there are rows |
| DeviceRender.Processed | src/ts/api.ts:36-38 | the records rendered are the device rows in sheet-then-child order, up to the first child that has no "Device Name" |
| DeviceRender.LastFor | src/ts/api.ts:36-39 | the last record in iteration order whose key is the id, or none when no record has that key |
| DeviceRender.ApplyAt | src/ts/api.ts:36-65 | after a pass, each element is as the last record with its key left it, and unchanged when no record has its key |
| DeviceRender.Untouched | src/ts/api.ts:38-41 | elements whose id is no record's key, and the empty id, are unchanged |
| DeviceRender.MissingElementSkipped | src/ts/api.ts:39-41 | a record whose element is missing changes nothing and does not stop the pass: the result is as if it were absent |
| DeviceRender.LastRecordWins | src/ts/api.ts:36-52 | when several processed records share a key, the element's block shows the last one processed; rows after a throwing child do not count |
| DeviceRender.ApplyKeepsOneBlock | src/ts/api.ts:42-50 | a pass keeps every element at one block or fewer, and every element a record names ends with a block |
| DeviceRender.Idempotent | src/ts/api.ts:46-52 | running a pass a second time on the same records leaves the elements as one pass left them |
| DeviceRender.ProcessedUnique | src/ts/api.ts:36-38 | the processed records are fixed by the rows: the longest run of device rows at the front |
| DeviceRender.ProcessedExtend | src/ts/api.ts:37-38 | one more device row, before any child has thrown, adds exactly that record |
| DeviceRender.ProcessedHalt | src/ts/api.ts:38 | a child without a "Device Name" adds no record and stops the pass |
| DeviceRender.ProcessedStops | src/ts/api.ts:38 | after a child has thrown, no later child is processed |
| Api.ErrorParagraph | src/ts/api.ts:28-30 | the error paragraph has no class, holds the message and is coloured "red" |
| Api.WithError | src/ts/api.ts:25-31 | `main` is kept as it was, with exactly one red paragraph holding the message appended; an absent `main` stays absent |
| Api.Page.UpdateDeviceStatus | src/ts/api.ts:35-71 | the elements become `Apply` of the processed records over the old elements; the result is false exactly when some child has no "Device Name"; `main` is unchanged |
| Api.Page.RenderDevice | src/ts/api.ts:38-68 | one record rewrites the element its lower-cased name identifies, as `Step` states, and changes nothing when that element is missing; `main` is unchanged |
| Api.Page.DisplayGlobalError | src/ts/api.ts:25-33 | `main` gets the red message as `WithError` states; device elements are unchanged |
| Api.Page.FetchAndUpdateDevices | src/ts/api.ts:10-22 | a non-OK or unparsable response changes no device element; any failure, including one thrown part-way, appends the load-failure message once; a full success leaves `main` unchanged |
| Api.StopsForGood | src/ts/api.ts:36-38 | a child that throws at sheet i, child j, fixes what the whole pass renders |

## Left out

- The network `fetch`, the hard-coded URL and `response.json()` are not modelled. Their outcome is the parameter `FetchResult`: not OK, unparsable, or a parsed `ApiResponse`. A rejected `fetch` (a network error) and a body that parses but has no `data` array reach the same catch as an unparsable body, so `Unparsable` stands for them.
- `console.log`, `console.warn` and `console.error` are not modelled. They leave no state on the page.
- StatusColors.Lower lower-cases ASCII letters only. JavaScript's `toLowerCase` also folds non-ASCII letters, so statuses and device names with such letters may be looked up differently.
- Only the element's top-level children are searched for the status-info block. `querySelector` also searches deeper descendants.
- DeviceRender.BlockIndex: only `StatusInfo` nodes are taken to carry class `status-info`. A paragraph or other node of that class (say a top-level `<p class="status-info">`) is not found, so the model appends a new block where `querySelector` would reuse and clear that node.
- DeviceRender.FirstBlock: likewise finds only `StatusInfo` nodes, never a paragraph or other node that has class `status-info`.
- `innerHTML`, `classList`, `style` and the rest of the DOM are reduced to the element, node and paragraph values above.
- Elements are values in a map, and `main` is kept apart from them. The model does not capture a device element that is also `main`, that lies inside another device element, or that lies inside `main`: `main == old(main)` speaks of `main`'s own children only.
- Payload fields are strings as `src/ts/types.ts` declares them. A sheet value of another JSON type (a number in "Device Name", a missing "Status") is not modelled.
- A monitor-slot row is taken to have no "Device Name". The model lets one sheet mix device rows and monitor-slot rows, which the runtime also allows.
- Matching monitor slots against the time of day is not modelled. No code for it exists in `src/ts/api.ts`; `MonitorSlot` is only a type declaration.
