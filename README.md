# Supermarket cart and voice commands: a Dafny model

This project models two pieces of a Unity VR application and proves properties about them.

**The shopping cart** (`ShoppingCartController`) keeps an ordered list of items.
- No two items share a name.
- Adding a name already in the cart merges the quantities.
- A new name is appended on page `min(count / itemsPerPage, pages - 1)`.
- Removing an item that had a UI object re-paginates the list.
- Clearing empties the list.
- A page cursor moves between the first and the last page. Exactly the page under the cursor is shown, and the previous/next buttons are enabled only when they can move.

**The voice-command component** (`VoiceCommandHandler`) has two parts.
- **Dispatcher.** A pure, first-match-wins substring classifier. "出现"/"显示" mean show, "隐藏"/"消失" mean hide, "红" means red and "蓝" means blue.
- **Lifecycle.** It requests microphone permission on Android and initialises the speech engine, skipping this while it is already configured (error -402 clears that and initialises again; a failed initialisation is tried again on the next -402 or permission check). It starts and stops recognition sessions, and restarts them on results and errors. It re-registers its two callbacks on enable when it is configured, and clears them on disable.

The speech service, the permission API and the scene object are not modelled. Their answers are method parameters:
- `micAuthorised`: the microphone is authorised;
- `initSucceeds`: the engine initialised;
- `code`: the error code.

Every call the component makes on them is appended to a ghost trace `calls`, and the contracts are stated over that trace.

Files:
- `text.dfy` (module `Text`): `Option`, and C#'s ordinal `string.Contains` with lemmas about occurrences.
- `shopping_cart.dfy` (module `ShoppingCart`): the cart specification functions `Added`, `Removed` and `Reorganized`, with their lemmas, plus `ValidateReferences` and the class `ShoppingCartController`.
  - `cartItems` is a `seq<CartItem>`.
  - `cartPages` is an `array<bool>` of the pages' active flags.
  - `currentPage` and the two button flags are fields.
- `voice_command.dfy` (module `VoiceCommand`):
  - `Classify` and the rule-table reference `FirstMatch`;
  - the `Trim`/`ToLower` model;
  - the callback-slot functions over the trace;
  - the class `VoiceCommandHandler`;
  - two client scenarios proved from the method contracts alone: `InitFailsTwice` and `LateResultAfterDisable`.

Notes on the code as written. The model follows the code in each case.
- `StartAsrService` has no "already listening" guard.
  - `HandleSpeechError` for codes other than -402 calls `StopAsr` only when configured, but always calls `StartAsr`.
  - So `StartAsr` is issued even on an engine that was never initialised.
- A final result whose text is empty is ignored: there is no dispatch and no restart, even with `autoStop`.
- Error code -402 clears `isAsrConfigured` and re-runs the permission check. The next initialisation therefore registers the callbacks and calls `InitAsrEngine` again.
- `HandleSpeechError` does not check `isActiveAndEnabled`; `HandleAsrResult` does.
- Restarts after errors are not bounded.
- The cart's page count may be 0. `ValidateReferences` then only disables the component, and `Start` still adds the test items.
  - Those items land on page -1 and get no UI object, because `IsValidPageIndex` refuses the index.
  - Removing such an item never re-paginates.
  - The model keeps this case: `OnValidPage`, `CursorInRange`.

## Model

| member | source | states |
|---|---|---|
| ShoppingCart.WrapAdd | Final/Assets/hypercasual_supermarket/ShoppingCartController.cs:79 | quantity addition is C# `int` addition: the exact sum when it fits in 32 bits, and in every case congruent to it modulo 2^32 |
| ShoppingCart.Min | Final/Assets/hypercasual_supermarket/ShoppingCartController.cs:84 | `Mathf.Min` gives a result no larger than either argument, and equal to one of them |
| ShoppingCart.Clamp | Final/Assets/hypercasual_supermarket/ShoppingCartController.cs:169 | a value below min gives min; otherwise a value above max gives max (so also when min > max); a value in range is returned unchanged; with min <= max the result lies in [min, max] |
| ShoppingCart.TargetPage | Final/Assets/hypercasual_supermarket/ShoppingCartController.cs:84 | with at least one page the page lies in [0, pages); with none it is -1; an item that fits in the pages goes to page position / itemsPerPage, and any later one to the last page |
| ShoppingCart.IsValidPageIndex | Final/Assets/hypercasual_supermarket/ShoppingCartController.cs:216-221 | an index is valid only when there is at least one page; it is then valid exactly when clamping it into [0, pages - 1] leaves it unchanged |
| ShoppingCart.IndexOf | Final/Assets/hypercasual_supermarket/ShoppingCartController.cs:75 | `Find` returns the first item with that name, or nothing exactly when no item has it |
| ShoppingCart.Added | Final/Assets/hypercasual_supermarket/ShoppingCartController.cs:73-91 | the cart after `AddItem`: same length when the name was present, otherwise the old items plus one; the name is then present, and the old positions keep their names |
| ShoppingCart.Removed | Final/Assets/hypercasual_supermarket/ShoppingCartController.cs:122 | the cart after `cartItems.Remove`: one item shorter exactly when the name was present, and holding only items of the old cart |
| ShoppingCart.Placed | Final/Assets/hypercasual_supermarket/ShoppingCartController.cs:163-167 | one re-pagination step keeps the item's name, price and quantity; with at least one page the item ends on a valid page with a UI object, and with none on page -1 |
| ShoppingCart.Reorganized | Final/Assets/hypercasual_supermarket/ShoppingCartController.cs:153-171 | the cart after `ReorganizeItems` keeps its length and its names in order; with at least one page every item is on a valid page with a UI object |
| ShoppingCart.AddExisting | Final/Assets/hypercasual_supermarket/ShoppingCartController.cs:75-80 | adding a name already in the cart changes only that item's quantity, by `quantity` (32-bit); the length, the order, its page, its UI object and every other item are unchanged |
| ShoppingCart.AddNew | Final/Assets/hypercasual_supermarket/ShoppingCartController.cs:82-88 | adding a new name appends exactly one item after the unchanged old items, with page min(oldCount / itemsPerPage, pages - 1); with at least one page that index is valid and the item gets its UI object |
| ShoppingCart.AddKeepsNamesDistinct | Final/Assets/hypercasual_supermarket/ShoppingCartController.cs:73-91 | AddItem preserves the invariant that item names are pairwise distinct |
| ShoppingCart.AddKeepsPagesValid | Final/Assets/hypercasual_supermarket/ShoppingCartController.cs:84-98 | AddItem keeps every item on a valid page with a UI object (or, with no pages, on page -1 without one) |
| ShoppingCart.RemovePresent | Final/Assets/hypercasual_supermarket/ShoppingCartController.cs:120-122 | removing an item drops exactly that item: the length shrinks by one, the name is gone, and the others keep their relative order |
| ShoppingCart.RemoveAbsent | Final/Assets/hypercasual_supermarket/ShoppingCartController.cs:122 | removing an item that is not in the cart changes nothing |
| ShoppingCart.RemoveKeepsInvariant | Final/Assets/hypercasual_supermarket/ShoppingCartController.cs:120-127 | removal keeps names distinct and every item on a valid page |
| ShoppingCart.ReorganizePlacesItems | Final/Assets/hypercasual_supermarket/ShoppingCartController.cs:163-167 | re-pagination keeps names, prices, quantities and order; item k goes to page min(k / itemsPerPage, pages - 1); with at least one page every item is on a valid page with a UI object |
| ShoppingCart.ReorganizeKeepsInvariant | Final/Assets/hypercasual_supermarket/ShoppingCartController.cs:153-171 | re-pagination preserves distinct names and valid pages |
| ShoppingCart.PageChildren | Final/Assets/hypercasual_supermarket/ShoppingCartController.cs:43-50 | the automatic page list is no longer than the list of children, and every entry's name contains "Page" |
| ShoppingCart.PageChildrenExact | Final/Assets/hypercasual_supermarket/ShoppingCartController.cs:43-50 | the automatic page list holds exactly the children whose name contains "Page" |
| ShoppingCart.PageChildrenAppend | Final/Assets/hypercasual_supermarket/ShoppingCartController.cs:44-50 | the page list is built child by child in child order (the filter distributes over concatenation) |
| ShoppingCart.ValidateReferences | Final/Assets/hypercasual_supermarket/ShoppingCartController.cs:39-63 | pages set by hand are kept and the component stays enabled; otherwise the pages are the "Page" children, and the component is disabled exactly when there are none |
| ShoppingCart.ShoppingCartController.constructor | Final/Assets/hypercasual_supermarket/ShoppingCartController.cs:17-28 | an empty cart on page 0 with the view in step (exactly page 0 shown, buttons set) |
| ShoppingCart.ShoppingCartController.UpdatePageVisibility | Final/Assets/hypercasual_supermarket/ShoppingCartController.cs:183-192 | the cursor becomes the given page (or stays); exactly the page under the cursor is active; prev is interactable iff the cursor > 0, next iff the cursor < pages - 1 |
| ShoppingCart.ShoppingCartController.CreateItemUI | Final/Assets/hypercasual_supermarket/ShoppingCartController.cs:93-99 | an item gets a UI object only when its page index is valid; otherwise nothing changes |
| ShoppingCart.ShoppingCartController.AddItem | Final/Assets/hypercasual_supermarket/ShoppingCartController.cs:73-91 | `quantity` defaults to 1; the cart becomes `Added(old cart, …)`, the cursor is unchanged, and the invariant (distinct names, valid pages, cursor in range, view in step) is preserved |
| ShoppingCart.ShoppingCartController.RemoveItem | Final/Assets/hypercasual_supermarket/ShoppingCartController.cs:120-127 | a missing item changes nothing; a removed item with a UI object leaves the re-paginated rest and a clamped cursor; one without leaves the rest as it was; the invariant is preserved |
| ShoppingCart.ShoppingCartController.ReorganizeItems | Final/Assets/hypercasual_supermarket/ShoppingCartController.cs:153-171 | the cart becomes `Reorganized(old cart)`, the cursor is clamped into [0, pages - 1], and the view shows the cursor's page |
| ShoppingCart.ShoppingCartController.ClearAllItems | Final/Assets/hypercasual_supermarket/ShoppingCartController.cs:129-138 | the cart is empty, the cursor is 0, and the invariant holds |
| ShoppingCart.ShoppingCartController.BuyAllItems | Final/Assets/hypercasual_supermarket/ShoppingCartController.cs:140-144 | buying leaves the cart empty and the cursor at 0 |
| ShoppingCart.ShoppingCartController.ShowPrevPage | Final/Assets/hypercasual_supermarket/ShoppingCartController.cs:173-176 | the cursor moves back by exactly one when > 0 and otherwise stays; the items are unchanged; the invariant (cursor in range) holds |
| ShoppingCart.ShoppingCartController.ShowNextPage | Final/Assets/hypercasual_supermarket/ShoppingCartController.cs:178-181 | the cursor moves on by exactly one when < pages - 1 and otherwise stays; the items are unchanged; the invariant holds |
| ShoppingCart.ShoppingCartController.AddTestItems | Final/Assets/hypercasual_supermarket/ShoppingCartController.cs:32-37 | the three demo items are added in order, each by `AddItem`; the cursor does not move |
| Text.Contains | Final/Assets/Code/VoiceCommandHandler.cs:175-190 | C#'s ordinal `string.Contains`: the word occurs at some offset of the text; a word that occurs is no longer than the text, "" occurs in every text, and every text occurs in itself |
| VoiceCommand.Classify | Final/Assets/Code/VoiceCommandHandler.cs:174-194 | the dispatcher gives no action exactly when no keyword of any dispatch rule occurs in the command |
| VoiceCommand.FirstMatchWins | Final/Assets/Code/VoiceCommandHandler.cs:174-194 | for any ordered rule list, the action is that of the first rule with a matching keyword |
| VoiceCommand.FirstMatchNone | Final/Assets/Code/VoiceCommandHandler.cs:174-196 | when no rule matches the command, it is unrecognised (NoOp) |
| VoiceCommand.ClassifyIsFirstMatch | Final/Assets/Code/VoiceCommandHandler.cs:175-194 | the dispatcher's if/else-if chain is the rule table show, hide, red, blue read first-match-wins |
| VoiceCommand.ClassifyExamples | Final/Assets/Code/VoiceCommandHandler.cs:175-194 | "显示红色" contains "红" yet gives Show; "隐藏" gives Hide; "蓝" gives Blue; "xyz" gives NoOp |
| VoiceCommand.IsWhiteSpace | Final/Assets/Code/VoiceCommandHandler.cs:130 | `char.IsWhiteSpace`, the set `Trim()` strips: it contains space, tab, line feed and carriage return, and no ASCII letter |
| VoiceCommand.TrimStart | Final/Assets/Code/VoiceCommandHandler.cs:130 | the result is a suffix of the text, everything dropped is white space, and it does not start with white space |
| VoiceCommand.TrimEnd | Final/Assets/Code/VoiceCommandHandler.cs:130 | the result is a prefix of the text, everything dropped is white space, and it does not end with white space |
| VoiceCommand.Trim | Final/Assets/Code/VoiceCommandHandler.cs:130 | the result is a piece of the text with only white space around it, with no white space at either end; all-white text trims to "" |
| VoiceCommand.Normalize | Final/Assets/Code/VoiceCommandHandler.cs:130 | the command handed to the dispatcher is no longer than the transcript, has no white space at either end and no upper-case ASCII letter |
| VoiceCommand.LowerChar | Final/Assets/Code/VoiceCommandHandler.cs:130 | per-character `ToLower`: the result is never an ASCII capital; A-Z move up by 32 to a letter, every other character is kept, and white space stays white space |
| VoiceCommand.ToLower | Final/Assets/Code/VoiceCommandHandler.cs:130 | lower-casing keeps the length, leaves no upper-case ASCII letter, maps A-Z to a-z and keeps every other character |
| VoiceCommand.ContainsTrimStart | Final/Assets/Code/VoiceCommandHandler.cs:130 | a keyword that does not start with white space occurs after dropping leading white space iff it occurs in the text |
| VoiceCommand.ContainsTrimEnd | Final/Assets/Code/VoiceCommandHandler.cs:130 | a keyword that does not end with white space occurs after dropping trailing white space iff it occurs in the text |
| VoiceCommand.ContainsTrim | Final/Assets/Code/VoiceCommandHandler.cs:130 | a keyword with no white space at its ends occurs in the trimmed text iff it occurs in the text |
| VoiceCommand.ContainsToLower | Final/Assets/Code/VoiceCommandHandler.cs:130 | a keyword without ASCII letters occurs in the lower-cased text iff it occurs in the text |
| VoiceCommand.ContainsNormalized | Final/Assets/Code/VoiceCommandHandler.cs:130-132 | such a keyword occurs in the dispatched command iff it occurs in the transcript |
| VoiceCommand.ClassifyIgnoresNormalization | Final/Assets/Code/VoiceCommandHandler.cs:130-132 | trimming and lower-casing the transcript never change the action it selects |
| VoiceCommand.SlotsOfAppend | Final/Assets/Code/VoiceCommandHandler.cs:82-83 | each speech-service callback slot holds the handler registered last; calls that register nothing leave it unchanged |
| VoiceCommand.VoiceCommandHandler.constructor | Final/Assets/Code/VoiceCommandHandler.cs:17-23 | not configured, no permission requested, enabled, and no call made yet |
| VoiceCommand.VoiceCommandHandler.Start | Final/Assets/Code/VoiceCommandHandler.cs:25-29 | the first permission check, with the effects of RequestMicrophonePermission |
| VoiceCommand.VoiceCommandHandler.RequestMicrophonePermission | Final/Assets/Code/VoiceCommandHandler.cs:33-50 | off Android, or with an authorised microphone, the component initialises; on Android without authorisation it only requests the permission, sets permissionRequested and schedules one check |
| VoiceCommand.VoiceCommandHandler.CheckPermissionAfterRequest | Final/Assets/Code/VoiceCommandHandler.cs:53-67 | when the dialog closes, the component initialises only if the microphone is authorised; otherwise it makes no call |
| VoiceCommand.VoiceCommandHandler.InitializeAndStartAsrSystem | Final/Assets/Code/VoiceCommandHandler.cs:73-97 | once configured it makes no call (idempotent); otherwise it registers both callbacks, then InitAsrEngine, and only on success becomes configured and makes exactly one StartAsr(autoStop, true, maxDuration); a failure is not retried within the call (a later -402 or permission check initialises again) |
| VoiceCommand.VoiceCommandHandler.StartAsrService | Final/Assets/Code/VoiceCommandHandler.cs:99-103 | it makes exactly one StartAsr(autoStop, true, maxDuration), configured or not |
| VoiceCommand.VoiceCommandHandler.StopAsrService | Final/Assets/Code/VoiceCommandHandler.cs:105-112 | it makes StopAsr iff the engine is configured |
| VoiceCommand.VoiceCommandHandler.HandleAsrResult | Final/Assets/Code/VoiceCommandHandler.cs:117-137 | inactive component, error message, partial result or empty final: no call; a non-empty final: the dispatch of the trimmed, lower-cased text, then one StartAsr iff autoStop |
| VoiceCommand.VoiceCommandHandler.HandleSpeechError | Final/Assets/Code/VoiceCommandHandler.cs:139-161 | -402 clears the configuration and re-runs the permission check (StartAsr only after a successful InitAsrEngine; with the microphone authorised there is no new permission request and no scheduled check); 1014 and every other code make StopAsr when configured, then StartAsr |
| VoiceCommand.VoiceCommandHandler.ProcessVoiceCommand | Final/Assets/Code/VoiceCommandHandler.cs:166-197 | without a bound object no call is made; otherwise the calls of the classified action (SetActive(true/false), or SetColor when the object has a renderer) |
| VoiceCommand.VoiceCommandHandler.SetObjectColor | Final/Assets/Code/VoiceCommandHandler.cs:199-203 | the colour is set only when the object has a renderer |
| VoiceCommand.VoiceCommandHandler.OnEnable | Final/Assets/Code/VoiceCommandHandler.cs:208-217 | a configured component registers both callbacks again and makes one StartAsr; otherwise it makes no call |
| VoiceCommand.VoiceCommandHandler.OnDisable | Final/Assets/Code/VoiceCommandHandler.cs:219-225 | both callback slots are cleared, then StopAsr when configured; afterwards neither slot holds the handler |
| VoiceCommand.VoiceCommandHandler.OnDestroy | Final/Assets/Code/VoiceCommandHandler.cs:227-230 | only StopAsrService: StopAsr iff configured |

## Left out

- `CalculateTotalPrice` and the price text (`:F2`) are left out, because they are floating-point arithmetic and string formatting. Prices are carried as exact `real` values.
- Unity scene and UI calls are left out. This covers:
  - `Instantiate`, `Destroy` (including the "(Clone)" sweep at the start of `ReorganizeItems`) and `transform.Find`;
  - `GetComponent`, `TryGetTextComponent` and `TryGetButton`;
  - `InitializeButtons` (listener wiring only) and `UpdateItemUI` (it rewrites a label only).

  A UI object is modelled as the boolean `hasUI`.
- A `CartItem` object is identified by its name, which the controller keeps unique. `RemoveItem` therefore takes the item's name. A stale item object whose name was removed and then added again is not modelled.
- The page count is fixed when the controller is created. `ValidateReferences` is modelled on its own, over the page names and the child names. The effect of `enabled = false` is not modelled: no method of the controller reads it.
- The inspector fields are constants of the model. This covers `itemsPerPage` (1..10), `autoStop`, `maxDuration`, the bound object and its renderer.
- `Debug.Log`, `UpdateDebugText` and every status message are left out.
- The speech service and the Android permission API are opaque. Their answers are parameters and their calls are trace entries. The model does not restrict which messages reach the callbacks, but it proves which handler each slot holds (`ResultSlot`, `ErrorSlot`).
- The coroutine timing of `CheckPermissionAfterRequest` (`WaitUntil`, `WaitForSeconds`) is left out. It is a single "permission resolved" event, counted by `pendingPermissionChecks`.
- `isActiveAndEnabled` is a flag that `OnEnable` sets and `OnDisable` clears. Deactivation of the game object is not modelled separately.
- ToLower: only the ASCII letters A-Z are mapped. Culture-specific and non-ASCII case mappings are not modelled, so `ClassifyIgnoresNormalization` holds under this ASCII model. `Trim` uses the full set of characters that `char.IsWhiteSpace` accepts.
- Both copies of `voice_interaction.cs` are not part of this model. `StartListening` is a non-terminating busy loop whose flag only an engine callback changes, and the two files are duplicates.
