# passB plugin core: route namespacing, the QRCode extension, the password-input filler

This project models three parts of the passB password-manager browser add-on's plugin code. It proves properties of each.

- **Popup route gathering** (module `Popup`): when the popup starts, it collects the routes that every registered extension contributes. A route must lie in its extension's namespace `/extension/<name>/` (trailing slash included). A missing path counts as the empty string. The first route that breaks this rule throws a configuration error. The message names the extension and the prefix it needs. If no route breaks the rule, the result is every route, unchanged, with extensions in registry order and routes in declared order. `GatherRoutes` is the source's nested loop. It is proved against `Concat`, `AllInNamespace` and `IsFirstViolation`.
- **The QRCode extension** (module `QRCodeExtension`): its fixed identity is the constants `Name = "QRCode"`, `Actions = ["show"]`, `DefaultOptions` (background `#FFFFFF`, foreground `#000000`, level `Q`) and `Routes`, whose only route is `/extension/QRCode/Show`. The module also covers the label lookup, the action dispatcher and the entry enumerator. It also covers the three whole-record edits that the options panel hands to `updateOptions`. The calls made to the `navigateTo` and `registerEntryCallback` callbacks, and the `console.error` diagnostics, are returned as sequences in the order they are made.
- **The `FillPasswordInputs` filler** (module `Fillers`): the page script `fillPasswordInputs` works in place on an array of `(type, value)` input records. It writes the password into each password input, in document order. For each of those inputs it records the `change`, `keyup` and, where supported, `input` events in a returned log. It returns the number of inputs it filled. The filler's identity is the constants `Name = "FillPasswordInputs"`, `DefaultOptions` (the empty map) and `HasOptionsPanel = false`. `fillPassword` returns the script injections it requests: none or one. `fillUsername` requests none.

Shared modules: `Wrappers` holds `Option` (a maybe-`undefined` value) and `Result` (a value, or the error thrown). `Routing` holds `Route`, which stands for react-router's `RouteProps`: an optional path and the name of the view.

The namespace check runs when the popup is constructed: `gatherRoutes` is a field initialiser of the popup component (src/Popup/Components/Popup.tsx:19). The model takes the registry's extension list as the method's input.

Helpers that model single source lines, and are used by the members in the table:
- `Popup.InNamespace` is the check at src/Popup/Components/Popup.tsx:82: the route's path, or `''` when it has none, must start with `/extension/<name>/`. It is built from `PathOrEmpty`, `StartsWith` and `NamespacePrefix`.
- `Popup.NamespaceMessage` is the thrown error's message, built as at src/Popup/Components/Popup.tsx:84.
- `Fillers.PasswordIndices` is the snapshot that `Array.from(document.querySelectorAll('input[type="password"]'))` takes at src/PluggableStrategies/Fillers/FillPasswordInputs.ts:10: the positions of the password inputs, in document order.
- `Fillers.AfterInjection` is what the code injected at src/PluggableStrategies/Fillers/FillPasswordInputs.ts:40-42 does to the page: it runs the page script with the password as its one argument.

## Model

| member | source | states |
|---|---|---|
| `Popup.GatherRoutes` | src/Popup/Components/Popup.tsx:78-92 | Gathering succeeds if and only if every route of every extension starts with `/extension/<its extension's name>/`. On success the result is exactly the in-order concatenation of all route lists. On failure the error is the one for the extension that holds the first violating route, in visiting order. |
| `Popup.ConcatLength` | src/Popup/Components/Popup.tsx:79-88 | The gathered list is as long as the sum of the extensions' route counts. |
| `Popup.ConcatAt` | src/Popup/Components/Popup.tsx:80-88 | Route `j` of extension `i` appears unchanged at position (routes of extensions before `i`) + `j`. |
| `Popup.ConcatOrigin` | src/Popup/Components/Popup.tsx:80-88 | Every gathered position holds, unchanged, the route of some extension `i` at some index `j`, at exactly that position. Together with `ConcatAt`, no route is dropped, invented or duplicated. |
| `Popup.GatheredRoutesInDeclaringNamespace` | src/Popup/Components/Popup.tsx:82-87 | On success, every gathered route's path starts with the namespace prefix of an extension that declared that route. |
| `Popup.FirstViolationUnique` | src/Popup/Components/Popup.tsx:80-86 | There is only one first violating route, so the thrown error depends only on the input. |
| `Popup.MissingPathRejected` | src/Popup/Components/Popup.tsx:82 | A route without a path is rejected for every extension name. |
| `Popup.NamespaceBoundary` | src/Popup/Components/Popup.tsx:82 | For `QRCode`, `/extension/QRCode/Show` is accepted, while `/extension/QRCode` and `/extension/QRCodeX/a` are rejected. For `Foo`, `/extension/Bar/x` is rejected. |
| `Popup.NamespaceMessageNamesExtension` | src/Popup/Components/Popup.tsx:83-85 | The error message contains the extension's name and its required prefix `/extension/<name>/`. |
| `QRCodeExtension.RoutesInNamespace` | src/Extensions/QRCodeExtension/QRCodeExtension.tsx:23-29 | The extension's route table meets the popup's namespace rule for the name `QRCode`. Gathers that table alone, unchanged, so gathering does not throw. |
| `QRCodeExtension.InitializeList` | src/Extensions/QRCodeExtension/QRCodeExtension.tsx:41-48 | One registration per listed label, in list order. Each carries that label and the extension's actions. An empty list gives no calls. |
| `QRCodeExtension.GetLabelForAction` | src/Extensions/QRCodeExtension/QRCodeExtension.tsx:50-57 | Total. The label is non-empty exactly for declared actions. For `show` it is `extension_qrcode_action_show`. |
| `QRCodeExtension.OfferedActionsHaveLabels` | src/Extensions/QRCodeExtension/QRCodeExtension.tsx:41-57 | Every action registered with a listed entry has the `show` label. |
| `QRCodeExtension.ExecuteAction` | src/Extensions/QRCodeExtension/QRCodeExtension.tsx:59-67 | `show` gives exactly one navigation to `/extension/QRCode/Show`, with state `{entry, options}`, and no diagnostic. Any other action gives no navigation and exactly one unknown-action diagnostic. Every navigation targets a route in the extension's route table. |
| `QRCodeExtension.OnLevelChange` | src/Extensions/QRCodeExtension/QRCodeExtension.tsx:87-90 | Replaces `level` with the chosen value and leaves both colours unchanged. |
| `QRCodeExtension.OnBgColorChange` | src/Extensions/QRCodeExtension/QRCodeExtension.tsx:106-109 | Replaces `bgColor` and leaves `fgColor` and `level` unchanged. |
| `QRCodeExtension.OnFgColorChange` | src/Extensions/QRCodeExtension/QRCodeExtension.tsx:121-124 | Replaces `fgColor` and leaves `bgColor` and `level` unchanged. |
| `QRCodeExtension.PanelEditsCommute` | src/Extensions/QRCodeExtension/QRCodeExtension.tsx:87-124 | Edits of different fields commute. A later edit of the same field overrides an earlier one. |
| `QRCodeExtension.PanelEditOfCurrentValue` | src/Extensions/QRCodeExtension/QRCodeExtension.tsx:87-124 | An edit that re-enters a field's current value leaves the options unchanged. |
| `Fillers.FillPasswordInputs` | src/PluggableStrategies/Fillers/FillPasswordInputs.ts:8-22 | The array afterwards is `Filled(old inputs, password)`. The returned count is the number of password inputs. The event log is `change`, `keyup` and (if supported) `input` for each password input, in document order. |
| `Fillers.PasswordIndicesExact` | src/PluggableStrategies/Fillers/FillPasswordInputs.ts:10 | The selected positions are exactly the password inputs, are strictly increasing (document order) and number `PasswordCount`. |
| `Fillers.FilledLength` | src/PluggableStrategies/Fillers/FillPasswordInputs.ts:10-11 | Filling neither adds nor removes inputs. |
| `Fillers.FilledAt` | src/PluggableStrategies/Fillers/FillPasswordInputs.ts:10-11 | Each position after filling is that input with the password written in if it is a password input, and otherwise the same input. |
| `Fillers.FilledInputs` | src/PluggableStrategies/Fillers/FillPasswordInputs.ts:10-11 | After filling, every password input's value is the password. Every other input is unchanged. No input changes its type. |
| `Fillers.FilledIdempotent` | src/PluggableStrategies/Fillers/FillPasswordInputs.ts:10-11 | Filling twice with the same password gives the same page as filling once. |
| `Fillers.EventsForLength` | src/PluggableStrategies/Fillers/FillPasswordInputs.ts:12-18 | There are two events per filled input, or three where `InputEvent` exists. |
| `Fillers.EventsForBlock` | src/PluggableStrategies/Fillers/FillPasswordInputs.ts:12-18 | Block `k` of the event log is `change`, `keyup`, then `input` if supported, all on the `k`-th filled input. |
| `Fillers.FillUsername` | src/PluggableStrategies/Fillers/FillPasswordInputs.ts:30-33 | Requests no script injection. |
| `Fillers.FillPassword` | src/PluggableStrategies/Fillers/FillPasswordInputs.ts:35-43 | An absent or empty password requests no injection, and every other password requests exactly one. That injection targets the active tab's id and carries the password unchanged. |
| `Fillers.FillPasswordFillsPage` | src/PluggableStrategies/Fillers/FillPasswordInputs.ts:35-43 | For a non-empty password, running the one requested injection on a page leaves the password in every password input and leaves every other input unchanged. |

## Left out

- Script injection: `browser.tabs.executeScript`, `Function.prototype.toString` and the double JSON encoding of the argument list are one abstract `ExecuteScript(tabId, password)` request. The model assumes the script receives the password unchanged.
- The CSS selector `input[type="password"]` becomes an `InputType` tag on each input. Attribute matching rules, such as case, are not modelled.
- Fillers.FilledInputs and Fillers.FillPasswordFillsPage treat the `value` setter as a plain write. A browser's value sanitisation for password inputs strips carriage returns and line feeds, so with a password such as `"ab\ncd"` the page holds `"abcd"`, and these lemmas do not describe that.
- Fillers.FillPassword: a rejected `browser.tabs.executeScript` promise, which `fillPassword` passes on to its caller (src/PluggableStrategies/Fillers/FillPasswordInputs.ts:42), is not modelled; the injection request is modelled as always accepted.
- DOM events are log entries. Event listeners and their effects on the page are not modelled. `typeof InputEvent === 'function'` is a boolean parameter.
- Promises and `await`: `initializeList`, `fillPassword` and `fillUsername` resolve their effects at once. `passCli.list()` is an input sequence of labels.
- `this.options` in `executeAction` comes from the `Extension` base class, which is not part of this model. It is a parameter standing for the extension's current options.
- `updateOptions`, the options store it writes to, the browser storage adapter, and the options page (`AddonOptions`) are not part of this model. The panel edits are modelled as the options value they pass to `updateOptions`.
- The rest of the popup: `componentDidMount` (the active-tab query), `render` and its route ordering, and the settings button that opens the options page and closes the window.
- The options panel's JSX, the QR code SVG component and the `Show` view.
- Registry behaviour: duplicate-name rejection, options defaulting and enable/disable idempotence. The code for these is not part of this model.
- Dependency-injection decorators (`@Service`, `@LazyInject`, `@injectable`).
