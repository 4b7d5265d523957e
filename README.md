# Alt-text gate for the Tweet composer, modelled in Dafny

The repository is a browser script that watches the Twitter compose UI. On
every batch of DOM mutations it scans the image attachments. While any
attached image lacks alt text, it blocks the Tweet button. It comes in two
variants:

- `extension/script.js` (module `ExtensionScript`): a group of the
  attachment UI is "missing" when it holds an `img` and its text shows no
  "ALT" (or "GIFALT") badge. Entering the block hides the real Tweet button,
  inserts a deep clone right before it, gives the clone the disabling class
  and the label "Add Alt Text", and registers a capturing `keydown` listener
  that swallows Cmd+Enter in the tweet text areas. Leaving the block undoes
  all of this.
- `script.js` (module `RootScript`): an attachments section is "missing"
  when its first unlabelled "Media" group holds an `img` that is not hosted
  on Giphy. Entering the block relabels the real button in place and adds
  the disabling class. The original label is captured on the first write
  only. Leaving the block writes that label back, or "Tweet" when it is
  empty, and removes the class.

Both variants decide in a `finally` block (module `Transition`). They
report only when labels are missing and nothing is reported yet. They
dismiss only when nothing is missing and a report is active. Otherwise
nothing changes.

The DOM is modelled abstractly (module `Dom`):

- A button's subtree is a value: `Node` is either a `Text` or an `Element`
  with its children, and `firstChild` is the first of those children.
- Rewriting the text node that `findTextNode` returns becomes
  `WithChainText`/`SetLabel`. They rebuild the tree down that same
  `firstChild` chain.
- The Tweet button, its clone and their parent are objects (`DomElement`,
  `Container`). Their `display`, class list, children and `parent` fields
  change in place.
- Each callback runs on one snapshot. The snapshot holds the attachment
  groups or sections the selectors matched, and the element the
  Tweet-button selector would return.

The comments at extension/script.js:101 and script.js:46 say that an empty
snapshot does nothing. In the code, though, the early `return` still runs
the `finally` block, with "missing" false. So an active block is lifted,
and an inactive one stays inactive. The model follows the code: see
`ExtensionScript.Gate.Callback`, `RootScript.Gate.Callback` and
`Transition.NextReporting`.

## Model

| member | source | states |
|---|---|---|
| `Dom.ChainLinks` | extension/script.js:16-22 | consecutive nodes of `Chain(n)` are linked by `firstChild`; the chain ends exactly where there is no first child |
| `Dom.FirstText` | extension/script.js:16-22 | what `findTextNode` returns is either nothing or a text node |
| `Dom.FirstTextIsFirstOnChain` | extension/script.js:16-22 | `FirstText` finds nothing exactly when no node of the `firstChild` chain is a text node; otherwise it finds the earliest text node of that chain and never any other node |
| `Dom.WithChainText` | extension/script.js:72 | setting `textContent` on the found text node touches only the `firstChild` chain: a text node becomes a text node holding the new text, an element keeps its number of children and every child after the first, and the chain keeps its length |
| `Dom.WithChainTextWrites` | extension/script.js:71-73 | after setting `textContent` of the found text node, the first text node on the chain reads the new text; without a text node the tree is unchanged |
| `Dom.WithChainTextRestores` | script.js:20-26 | writing back the text that was there restores the node tree exactly |
| `Dom.WithChainTextLastWins` | script.js:25 | two writes in a row leave only the second text |
| `Dom.Label` | script.js:12-18 | a button has a label exactly when a text node is on its `firstChild` chain, and the label is that node's data |
| `Dom.SetLabel` | script.js:25 | relabelling a button through its text node keeps its number of children and every child after the first, and the first child's `firstChild` chain keeps its length |
| `Dom.SetLabelWrites` | script.js:25 | writing a label through the text node makes it the button's label; a button without a text node is left as it is |
| `Dom.SetLabelRestores` | script.js:22-25 | writing the old label back after any write restores the button's children exactly |
| `Dom.SetTextContent` | extension/script.js:68-70 | the fallback of setting `textContent` on the whole element leaves one text node, so the label is the text that was written |
| `Dom.AddClass` | script.js:74-76 | `classList.add`: the class is present afterwards, appended at the end when it was absent; no other class is added or lost, and no duplicate is created |
| `Dom.RemoveClass` | script.js:84 | `classList.remove`: the class is absent afterwards, and every other class is kept |
| `Dom.RemoveAddedClass` | script.js:75-84 | removing a class that was just added, and was absent before, gives back the original class list |
| `Dom.IndexOf` | extension/script.js:42-43 | `indexOf` is -1 exactly when the element is absent; otherwise it is the first position holding it |
| `Dom.Includes` | extension/script.js:114 | `String.prototype.includes`: the empty string is always included, and a match needs a text at least as long as the searched string |
| `Dom.InsertBefore` | extension/script.js:76 | `insertBefore` puts the clone immediately before the reference node and keeps every other child in order |
| `Dom.RemoveChild` | extension/script.js:85 | `removeChild` takes the first occurrence of the node out of the list and keeps every other child in order |
| `Dom.InsertThenRemove` | extension/script.js:76-85 | inserting the clone and later removing it restores the parent's child list exactly |
| `Dom.DomElement.CloneOf` | extension/script.js:60 | `cloneNode(true)` makes a parentless copy with the same subtree, classes and inline display |
| `Transition.Decide` | extension/script.js:121-128 | the `finally` block acts exactly when the classification and the reporting flag disagree; it reports only when labels are missing and dismisses only while reporting |
| `Transition.NextReporting` | script.js:69-86 | afterwards the flag is set exactly when labels are missing and either a report was already active or a Tweet button was found |
| `Transition.SecondRunIsIdle` | extension/script.js:121-128 | a second run on the same snapshot stays put, or retries a report that found no button, and leaves the flag unchanged |
| `ExtensionScript.FindTextNode` | extension/script.js:16-22 | the `while` loop over `firstChild` returns exactly `FirstText(node)`, so nothing or the first text node on the chain |
| `ExtensionScript.GifAltContainsAlt` | extension/script.js:114 | a text that includes "GIFALT" includes "ALT", so the second marker test never changes the verdict |
| `ExtensionScript.MissingAltText` | extension/script.js:108-117 | a group blocks exactly when it holds an image and its text includes neither "ALT" nor "GIFALT", the two-marker test of the source |
| `ExtensionScript.Classify` | extension/script.js:95-119 | the scan reports "missing" exactly when some group holds an image and its text includes neither "ALT" nor "GIFALT"; groups without an image never count |
| `ExtensionScript.OnKeyDown` | extension/script.js:37-47 | the event is stopped exactly when the key is Enter, the meta key is held, and the focused element is one of the tweet text areas |
| `ExtensionScript.DecoratedClone` | extension/script.js:60-73 | the clone is a fresh, parentless copy with the original's display; it has the disabling class added, and its label is "Add Alt Text", written through its text node or, when it has none, by setting its whole `textContent` |
| `ExtensionScript.Gate.constructor` | extension/script.js:34-36 | the script starts not reporting, with no button, no clone and no listener |
| `ExtensionScript.Gate.ReportMissingLabels` | extension/script.js:52-79 | with no button it changes nothing. Otherwise: the fresh clone carries the disabled class and the label "Add Alt Text" (through its text node, or its whole `textContent` when it has none); the original is hidden and keeps its label and classes; the clone sits immediately before it; the parent and its child list before the insertion are recorded; the listener is registered and the flag set |
| `ExtensionScript.Gate.DismissMissingLabels` | extension/script.js:80-91 | it un-hides the original (display ""), takes the clone out so the parent's children are as before the report, deregisters the listener, clears both references, the recorded parent and the flag, and never touches the original's label, classes or parent |
| `ExtensionScript.Gate.Callback` | extension/script.js:93-129 | the new flag follows `NextReporting` for this snapshot; an empty snapshot lifts any block. Only a run that reports may change the element the Tweet-button query found and that element's parent; a dismissal touches only the recorded button, clone and parent. A run that stays, or a report that finds no button, changes neither the gate nor the found button, its parent, the clone or the recorded parent. A report leaves the clone (with the disabling class, the label "Add Alt Text" and the original's display, so it stays visible), the hidden original and the insertion as `ReportMissingLabels` states; a dismissal un-hides the original with its children, classes and parent kept, detaches the clone and restores the parent's child list. A second run on the same snapshot would stay, or retry a report that found no button |
| `ExtensionScript.Gate.DispatchKeyDown` | extension/script.js:77-87 | a keydown is swallowed only while the listener is registered, so only while a report is active, and then exactly when `OnKeyDown` holds |
| `ExtensionScript.EnterThenExit` | extension/script.js:93-129 | a batch with an image lacking alt text, then a batch without one: the real button is shown again (display "") with its children and classes as before, its parent's child list is as before the clone went in, and the gate is idle with no listener |
| `RootScript.FindTextNode` | script.js:12-18 | starting from the first child, the loop returns the first text node on the chain; it is only defined when such a node exists |
| `RootScript.IsGiphyAsWritten` | script.js:8 | `GIPHY_URL.test(src)` as written: a match needs "/http" somewhere in `src`, and every match is also a match of the corrected test |
| `RootScript.IsGiphyUrl` | script.js:8 | the corrected test: a match needs at least 30 characters ("http", "://media", a digit and ".giphy.com/media/"); `GiphyUrlMatchesGiphyMedia` shows every Giphy media URL matches |
| `RootScript.AsWrittenNeedsSlash` | script.js:8 | as written, the Giphy pattern matches only where a "/" comes right before "http", and the corrected pattern then matches too |
| `RootScript.GiphyUrlMatchesGiphyMedia` | script.js:8 | the corrected pattern matches every `http(s)://media<digits>.giphy.com/media/<path>` URL |
| `RootScript.AsWrittenMissesGiphyMedia` | script.js:8 | the as-written pattern misses "https://media0.giphy.com/media/cat.gif", which the corrected one matches |
| `RootScript.GiphySectionIsExempt` | script.js:62-67 | a section whose image is that Giphy URL does not block under the corrected test, but it passes the as-written test's exemption and would block |
| `RootScript.SectionMissing` | script.js:51-67 | a section blocks only when its first unlabelled group exists and holds an image, and never when the as-written Giphy test would already exempt that image |
| `RootScript.Classify` | script.js:41-68 | every section is visited; the result is "missing" exactly when some section's first unlabelled group exists, holds an image, and that image is not hosted on Giphy |
| `RootScript.ExitText` | script.js:82 | the restored label is never empty: it is the captured label when that is non-empty, and "Tweet" when no label was captured or the captured one is empty |
| `RootScript.EnterExitRestoresButton` | script.js:20-26 | with a non-empty label captured from this button and the class absent before, entering then leaving restores the button's children and class list exactly |
| `RootScript.ExitWritesFirstCapture` | script.js:22-24 | the label is captured once per page, so leaving a later block writes the first captured label (or "Tweet"), not the current button's own label |
| `RootScript.Gate.constructor` | script.js:10-37 | the script starts with no captured label and not reporting |
| `RootScript.Gate.WriteTextToButtonNode` | script.js:20-26 | the label is captured only while none has been captured; later writes never overwrite it; the button's label becomes the given text |
| `RootScript.Gate.Callback` | script.js:40-88 | the new flag follows `NextReporting`. Entering (button present) writes "Add Alt Text" and adds the class without duplicating it. Leaving writes the captured label or "Tweet" and removes the class. With no button, or when staying, nothing changes. Leaving requires a button; every write requires a text node |
| `RootScript.EnterThenExit` | script.js:69-86 | a batch with an unlabelled image followed by a batch without one leaves the button's label and classes as they were, and the gate idle with the label captured |

## Findings

| source | as written | input that shows it | evidently intended | confidence | as-written member | corrected member |
|---|---|---|---|---|---|---|
| script.js:8 | the template literal turns each `\/` into `/`, so the pattern text is `/http(s?)://media([0-9]+).giphy.com/media/`: the leading `/` from regex-literal syntax stays in, and a match needs a "/" right before "http" | `img.src` = "https://media0.giphy.com/media/cat.gif": the test fails, so the Giphy image is reported as missing alt text | `http(s?)://media([0-9]+).giphy.com/media/`, so that Giphy-hosted images are exempt | high; not executed | `RootScript.IsGiphyAsWritten`, `RootScript.AsWrittenMissesGiphyMedia` | `RootScript.IsGiphyUrl`, `RootScript.GiphyUrlMatchesGiphyMedia` |

`RootScript.Classify` and `RootScript.Gate.Callback` use the corrected test.

## Left out

- Creating the `MutationObserver` and calling `observe` (extension/script.js:131-132, script.js:91-93) are host event plumbing. Each callback is a method run on a snapshot.
- The injected `<style>` element and its CSS rule (extension/script.js:23-33, script.js:28-35) are presentation only. The disabling class is modelled as a name in the class list.
- `querySelector`/`querySelectorAll`, `document.activeElement` and `img.src` are foreign DOM APIs. Their results are parameters: the groups or sections, the found button, the focused element and the text areas.
- `addEventListener`/`removeEventListener` and `stopImmediatePropagation` are modelled by the `keyListenerRegistered` flag and the `stopped` result of `DispatchKeyDown`. Event propagation itself is not modelled.
- `cloneNode(true)` copies only what the gate uses: the subtree, the class list and the inline `display`.
- Writing through the text-node reference that `findTextNode` returns is modelled on values. `SetLabel` rebuilds the same `firstChild` chain. Aliasing of that text node by other references is not captured.
- Changes the host page makes to the button or its parent between two callbacks are not modelled. In particular, `removeChild` throws `NotFoundError` when the clone is no longer a child of the button's parent (extension/script.js:85), and that path is absent. The gate's `Valid` predicate assumes the page left them alone.
- ExtensionScript.Gate.DismissMissingLabels: resets the original button's `display` to "", not to its value before the report, as the code does (extension/script.js:84). The round trip therefore restores `display` only when it was "" before.
- RootScript.FindTextNode: the source throws a `TypeError` when no text node lies on the chain below the button, and when the exit branch finds no button (script.js:14, 82). Both are preconditions here, not error paths.
- RootScript.Gate.Callback: its precondition asks for a text node in the button whenever a write happens. It does not model the exception that escapes the `finally` block otherwise.
- Strings are sequences of Unicode scalar values, not UTF-16 code units. In the Giphy pattern, `.` is any character except the four ECMAScript line terminators.
