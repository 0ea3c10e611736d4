# Nuke design system: toast lifecycle and theme installer

A Dafny model of two parts of the Nuke design system.

**The `<nuke-toast>` element** (`core/toast/toast.core.js`). A toast element
is a `Toast.NukeToast` object. Its class set, attribute map, child list and
pending auto-dismiss timer are updated in place by `ConnectedCallback`,
`AddCloseButton`, `AutoDismiss`, `Dismiss` and the `NukeToast.show` factory
(`Toast.NukeToast.Show`). The page is a `Toast.Window` object. It holds the
children of the shared `.nuke-toast-container`. That container is either
part of the page's own markup or created by the first programmatic toast.
The page also holds the event loop's queue of pending callbacks:
`setTimeout` entries with their handle and delay, and
`requestAnimationFrame` entries. A callback runs only when
`Window.RunTask` takes it off the queue, so every ordering the browser could
choose can be stated. A click on a child runs its handler through
`Window.Click`. The `duration` attribute is read with JavaScript's
`parseInt` (section 19.2.5 of ECMA-262), modelled in `JsText` together with
the white-space set of `String.prototype.trim`.

**The postinstall script** (`scripts/postinstall.js`). It works as follows:
- It skips setup in CI.
- It exits early when `.nukerc` names a theme folder that still exists.
- It dispatches on the trimmed menu answer.
- `copyTheme` creates the target and copies the package's `theme` folder
  into it with `copyRecursive`. Only after that does it record the target in
  `.nukerc`.

The file system is kept in memory. `FileTree.Fs` maps absolute paths to
directories and files. The read-only theme folder is a tree
(`FileTree.Node`). `mkdirSync` with `recursive: true`, `copyFileSync` and the
recursive copy are pure functions over it (`MkdirP`, `CopyFile`,
`CopyTree`). The script itself runs imperatively against a `Postinstall.Disk`
object. `Postinstall.CopyRecursive` is the recursive method with its loop
over directory entries. It is proved to leave the disk exactly as
`CopyTree` says, and the properties of the copy are proved about `CopyTree`.
Environment variables and the answers typed at the two prompts are inputs.
`.nukerc` is kept as the already-parsed `themePath` it records.

Files: `wrappers.dfy` (`Option`), `js_text.dfy` (`trim`, `parseInt`),
`toast.dfy`, `file_tree.dfy`, `postinstall.dfy`.

`parseInt` follows ECMA-262 rather than the simpler reading "optional sign,
then decimal digits". With no radix argument, a `0x` or `0X` prefix selects
radix 16, so `duration="0x10"` arms a 16 ms timer.

## Model

| member | source | states |
|---|---|---|
| Toast.WithDefaultVariant | core/toast/toast.core.js:14-17 | after connecting, some variant class (`zen`, `soft`, `solid`) is present; no class is removed; the only class that may be added is `zen`, and it is added exactly when no variant was present |
| Toast.CloseButton | core/toast/toast.core.js:34-41 | the close control is a `button` with class `toast-close`, `aria-label` "Close notification", the single character U+00D7 as text, and a click that dismisses its owner (corrected glyph, see Findings) |
| Toast.CloseButtonAsWritten | core/toast/toast.core.js:36 | the close control as written differs from the corrected one only in its text, which is two characters and not the multiplication sign |
| Toast.AfterDismiss | core/toast/toast.core.js:54-55 | after `dismiss`, `show` is absent, `hide` is present, and every other class is as before |
| Toast.AfterDismissIdempotent | core/toast/toast.core.js:54-55 | a second `dismiss` leaves the same class set as the first |
| Toast.CancelTimer | core/toast/toast.core.js:50-52 | after `clearTimeout(id)` no pending timeout carries that handle, every remaining task was pending before, and every other pending task stays; order and number are stated by `CancelTimerConcat` and `CancelTimerSingle` |
| Toast.CancelTimerConcat | core/toast/toast.core.js:50-52 | `clearTimeout` works piece by piece over the queue, so the other pending tasks keep their order and number, duplicates included |
| Toast.CancelTimerSingle | core/toast/toast.core.js:50-52 | a single pending task goes exactly when it is a timeout with that handle |
| Toast.Detach | core/toast/toast.core.js:58-60 | after `remove()` the toast is not among the container's children, every remaining child was there before, and every other child stays; order is stated by `DetachConcat` and `DetachSingle` |
| Toast.DetachConcat | core/toast/toast.core.js:58-60 | `remove()` works piece by piece over the child list, so the other children keep their order |
| Toast.DetachSingle | core/toast/toast.core.js:58-60 | a single child goes exactly when it is the removed toast |
| Toast.DetachLast | core/toast/toast.core.js:58-60 | removing the toast appended last restores the list it was appended to |
| Toast.DetachFirstOfTwo | core/toast/toast.core.js:58-60 | of two distinct toasts appended after the others, whichever is removed first, the other stays after the others, in creation order |
| Toast.DetachAbsent | core/toast/toast.core.js:58-60 | removing a toast that is not in the container leaves the children unchanged |
| Toast.DetachIdempotent | core/toast/toast.core.js:58-60 | a second removal of the same toast changes nothing |
| Toast.DetachAbsentWhenMissing | core/toast/toast.core.js:58-60 | the same fact as an implication, for the removal callback |
| Toast.DurationOf | core/toast/toast.core.js:23 | `parseInt` of the `duration` attribute, with a missing attribute read as "null" and NaN as 0; its meaning is stated by `DurationPositiveIff`, `DurationOfNumeral`, `DurationIgnoresOtherAttributes` and `DefaultDurationIs3000` |
| Toast.DurationPositiveIff | core/toast/toast.core.js:22-26 | the parsed duration is positive exactly when the attribute is present and `parseInt` gives a positive number; missing, NaN, zero and negative durations give no timer |
| Toast.DurationOfNumeral | core/toast/toast.core.js:23 | a `duration` written as the numeral of n reads as n, and with a minus sign as -n |
| Toast.DurationIgnoresOtherAttributes | core/toast/toast.core.js:23 | only the `duration` attribute decides the parsed duration |
| Toast.DurationIgnoresAria | core/toast/toast.core.js:10-23 | setting `role` and `aria-live` first does not change the parsed duration |
| Toast.Armed | core/toast/toast.core.js:24-26 | connect queues at most one auto-dismiss timer, and one exactly when the parsed duration is positive |
| Toast.DefaultDurationIs3000 | core/toast/toast.core.js:79-83 | the default attribute value `'3000'` reads as 3000 ms |
| Toast.Window.SetTimeout | core/toast/toast.core.js:44-46 | `setTimeout` appends a timeout under a fresh handle that no pending timeout uses, and the handle counter advances by one |
| Toast.Window.ClearTimeout | core/toast/toast.core.js:50-52 | `clearTimeout` leaves the queue `CancelTimer` describes |
| Toast.Window.RequestAnimationFrame | core/toast/toast.core.js:29-31 | `requestAnimationFrame` appends an animation-frame callback |
| Toast.Window.RemoveElement | core/toast/toast.core.js:58-60 | `remove()` detaches the toast from the container; a toast already gone leaves the page as it was |
| Toast.Window.constructor | core/toast/toast.core.js:86 | a loaded page has no pending callbacks; its container is the one its markup holds, if any, and `show` has created none |
| Toast.Window.Run | core/toast/toast.core.js:29-60 | running a callback (`Ran`): the frame callback adds `show`; a dismiss callback runs `dismiss`; the removal callback detaches the toast; nothing else changes, and in particular the count of created containers stays, and the timer-handle counter advances only when `dismiss` schedules its removal |
| Toast.Window.RunTask | core/toast/toast.core.js:29-60 | one turn of the event loop: the chosen callback leaves the queue and then has the effect `Ran` describes against the remaining queue |
| Toast.Window.Click | core/toast/toast.core.js:39 | a click on a child with a handler runs that handler at once with the effect `Ran` describes, and no pending callback is lost |
| Toast.ConnectThenClose | core/toast/toast.core.js:20-55 | clicking the close button that connecting appended swaps `show` for `hide` on the variant-completed class set, leaves no pending timeout under the recorded auto-dismiss handle, and queues the removal with delay 300 last |
| Toast.NukeToast.constructor | core/toast/toast.core.js:66 | a new element has no classes, attributes, children or timer |
| Toast.NukeToast.ConnectedCallback | core/toast/toast.core.js:9-32 | connect sets `role="status"` and `aria-live="polite"`, applies the default variant, and appends exactly one close button after the unchanged earlier children (the corrected "×" button, see Findings); it arms an auto-dismiss timer with the parsed duration iff that duration is positive; `show` is not added, only an animation-frame callback that adds it is queued |
| Toast.NukeToast.AddCloseButton | core/toast/toast.core.js:34-41 | exactly one child is appended, last, with class `toast-close`, label "Close notification" and a click that dismisses; earlier children are unchanged; the button is the corrected `CloseButton`, not the as-written one (see Findings) |
| Toast.NukeToast.AutoDismiss | core/toast/toast.core.js:43-47 | a timer that calls `dismiss` after `duration` is queued and its handle recorded |
| Toast.NukeToast.Dismiss | core/toast/toast.core.js:49-61 | the recorded timer is cancelled so it can never fire, `show` becomes `hide`, and a removal with delay 300 is queued under the next handle |
| Toast.NukeToast.Build | core/toast/toast.core.js:66-83 | before connecting, the new toast's only child is the `toast-message` span with the message; its class set is the style when one is given, else empty; `duration` is `options.duration` when defined, else `'3000'`; no timer is armed |
| Toast.NukeToast.Show | core/toast/toast.core.js:65-95 | the toast's children are the `toast-message` span with the message, then the close button; its style class is applied; `duration` is `options.duration` when defined and `'3000'` otherwise; the container is created only when missing and the toast is appended last; the toast is connected |
| Toast.ShowThenPaint | core/toast/toast.core.js:28-31 | after the frame callback of a new toast runs, `show` is present |
| Toast.DismissTwice | core/toast/toast.core.js:49-61 | two `dismiss` calls leave the class set of one, and after the last removal callback the toast is out of the container |
| Toast.TwoToasts | core/toast/toast.core.js:85-93 | two `show` calls append the toasts in call order, and together create one container exactly when the page had none |
| Toast.DismissThenRemove | core/toast/toast.core.js:49-60 | `dismiss` followed by the turn that runs its removal takes the toast out of the container and creates no container |
| Toast.ShowDismissRemove | core/toast/toast.core.js:65-95 | a toast shown, dismissed and removed leaves the container's children as they were, and creates a container only when the page had none |
| Toast.ShowDismissShow | core/toast/toast.core.js:85-93 | after a toast has come and gone, the next `show` reuses the container: one container is created exactly when the page had none, and the container holds the earlier children and the new toast |
| JsText.Trim | scripts/postinstall.js:73 | `String.prototype.trim`; its meaning is stated by `TrimStartSpec`, `TrimEndSpec` and `TrimIgnoresSurroundingWhiteSpace` |
| JsText.TrimStartSpec | scripts/postinstall.js:73 | the leading white space `trim` drops is all white space, and what is kept starts with a non-white-space character or is empty |
| JsText.TrimEndSpec | scripts/postinstall.js:73 | the same for trailing white space |
| JsText.TrimStartSkipsWhiteSpace | scripts/postinstall.js:73 | leading white space does not change where the kept part starts |
| JsText.TrimEndSkipsWhiteSpace | scripts/postinstall.js:73 | trailing white space does not change where the kept part ends |
| JsText.TrimIgnoresSurroundingWhiteSpace | scripts/postinstall.js:73 | `trim` of a string padded with white space is the string itself |
| JsText.ParseInt | core/toast/toast.core.js:23 | `parseInt` with no radix: white space skipped, then `ParseSigned`; its meaning is stated by `ParseIntSkipsWhiteSpace`, `ParseIntOfNumeral`, `ParseIntOfNegativeNumeral`, `ParseIntOfPlusNumeral`, `ParseIntOfHexNumeral`, `ParseIntNoDigits` and `ParseIntSignNoDigits` |
| JsText.ParseSigned | core/toast/toast.core.js:23 | one optional `-` or `+`, then `ParseUnsigned`; stated by `ParseIntOfDigitStart`, `ParseIntOfMinusDigitStart`, `ParseIntOfPlusNumeral`, `ParseIntOfZeroStart`, `ParseIntNoDigits` and `ParseIntSignNoDigits` |
| JsText.ParseUnsigned | core/toast/toast.core.js:23 | the digit run after an optional `0x`/`0X` prefix, in radix 16 after the prefix and 10 otherwise, NaN when empty; stated by `ParseUnsignedOfNumeral`, `ParseUnsignedOfHex`, and for an empty decimal run by `ParseIntNoDigits` and `ParseIntSignNoDigits` |
| JsText.DigitValue | core/toast/toast.core.js:23 | digit values are at most 36 and below 10 exactly for `0`-`9` |
| JsText.DigitPrefixSpec | core/toast/toast.core.js:23 | `parseInt` reads the longest run of digits at the start |
| JsText.DecimalString | core/toast/toast.core.js:82 | the numeral of a number is non-empty and made of decimal digits |
| JsText.DecimalStringValue | core/toast/toast.core.js:23 | a numeral's digit value is the number it renders |
| JsText.DigitPrefixOfNumeral | core/toast/toast.core.js:23 | the digit run of a numeral followed by a non-digit is the numeral |
| JsText.ParseUnsignedOfNumeral | core/toast/toast.core.js:23 | the digits of a numeral followed by nothing or a non-digit read as its value; after the numeral `0`, the next character must also be neither `x` nor `X` |
| JsText.ParseIntOfDigitStart | core/toast/toast.core.js:23 | a string starting with a digit is read without skipping anything |
| JsText.ParseIntOfMinusDigitStart | core/toast/toast.core.js:23 | a minus sign before a digit negates the value |
| JsText.NumeralStart | core/toast/toast.core.js:23 | a numeral starts with a decimal digit |
| JsText.ParseIntOfNumeral | core/toast/toast.core.js:23 | `parseInt(String(n) + rest)` is n when rest is empty or starts with a non-digit, which for n = 0 must also be neither `x` nor `X` (so `"5x"` reads as 5) |
| JsText.ParseIntOfNegativeNumeral | core/toast/toast.core.js:23 | `parseInt("-" + String(n) + rest)` is -n under the same condition |
| JsText.ParseIntOfPlusNumeral | core/toast/toast.core.js:23 | `parseInt("+" + String(n) + rest)` is n under the same condition |
| JsText.ParseIntNoDigits | core/toast/toast.core.js:23 | after white space, the empty string or a character that is neither a digit nor a sign gives NaN, e.g. `"abc"` or `""`, so such a `duration` arms no timer |
| JsText.ParseIntSignNoDigits | core/toast/toast.core.js:23 | one sign followed by nothing or by a non-digit gives NaN, e.g. `"-"` or `"+x"` |
| JsText.ParseIntOfDigitRun | core/toast/toast.core.js:23 | any run of decimal digits, leading zeros included, reads as its decimal value when what follows is empty or a non-digit (neither `x` nor `X` after a lone `0`): `"0300"` reads as 300 |
| JsText.ParseIntSkipsWhiteSpace | core/toast/toast.core.js:23 | leading white space does not change what `parseInt` returns |
| JsText.ParseUnsignedOfHex | core/toast/toast.core.js:23 | after `0x` or `0X`, a hex digit run ended by the end of the string or a non-hex character reads as its radix-16 value, and an empty run is NaN |
| JsText.ParseIntOfZeroStart | core/toast/toast.core.js:23 | a string starting with `0` is read without skipping anything, and a minus sign before it negates the value |
| JsText.ParseIntOfHexNumeral | core/toast/toast.core.js:23 | for every hex digit run h and every rest that does not start with a hex digit, `parseInt("0x" + h + rest)` (or `"0X"`) is h's radix-16 value, NaN when h is empty, and with a minus sign in front the negated value |
| JsText.ParseIntHex | core/toast/toast.core.js:23 | an instance: `"0x1F"` reads as 31 |
| JsText.ParseIntHexStopsAtNonDigit | core/toast/toast.core.js:23 | an instance: `" 0X10px"` reads as 16 |
| JsText.ParseIntHexWithoutDigits | core/toast/toast.core.js:23 | an instance: `"0x"` and `"0xg"` are NaN |
| FileTree.IndexOf | scripts/postinstall.js:136 | the entry found has the name looked up, and -1 means no entry has it |
| FileTree.MkdirP | scripts/postinstall.js:132 | `mkdirSync(p, { recursive: true })`; its meaning is stated by `MkdirPSpec` |
| FileTree.CopyFile | scripts/postinstall.js:139 | `copyFileSync(src, dest)` for a source file; `CopyFileSpec` states when it throws and what it changes |
| FileTree.CopyFileSpec | scripts/postinstall.js:139 | `copyFileSync` throws exactly when `dest` is the root, its parent is missing or is a file, or `dest` is a directory; otherwise `dest` holds a file with the source content and every other path is unchanged |
| FileTree.CopyTree | scripts/postinstall.js:128-141 | `copyRecursive` as a function of the tree; its meaning is stated by `CopyTreeKeepsDirectories`, `CopyTreeOnlyWritesSource` and `CopyTreeComplete` |
| FileTree.CopyEntries | scripts/postinstall.js:135-137 | the loop over a directory's entries, stopping at the first throw; stated by the three `CopyEntries` lemmas |
| FileTree.CreateDirsSpec | scripts/postinstall.js:132 | creating the missing directories makes every segment of the path a directory, keeps what existed, and adds only segments of the path |
| FileTree.BlockedSpec | scripts/postinstall.js:132 | a path is blocked exactly when one of its segments is a file |
| FileTree.MkdirPSpec | scripts/postinstall.js:105 | recursive `mkdirSync` throws exactly when a segment of the path is a file; otherwise every segment is a directory, nothing that existed changes, and all that is new lies on the path |
| FileTree.CopyTreeKeepsDirectories | scripts/postinstall.js:128-141 | a directory stays a directory through the copy, whether it finishes or throws |
| FileTree.CopyEntriesKeepsDirectories | scripts/postinstall.js:135-137 | the same for the loop over entries |
| FileTree.CopyTreeOnlyWritesSource | scripts/postinstall.js:128-141 | the copy only creates or overwrites: an existing path keeps its content unless the source has the same relative path, and a new path is on the way to `dest` or a path of the source |
| FileTree.CopyEntriesOnlyWritesSource | scripts/postinstall.js:135-137 | the same for the loop over entries |
| FileTree.CopyTreeComplete | scripts/postinstall.js:128-141 | after a copy that did not throw, every path of the source exists under `dest` with the same kind and file content |
| FileTree.CopyEntriesComplete | scripts/postinstall.js:135-137 | after the loop, each entry's subtree is under `dest` at the entry's name |
| FileTree.DirectoryComplete | scripts/postinstall.js:131-137 | a directory is fully copied when it exists and each entry's subtree is copied |
| Postinstall.IsCI | scripts/postinstall.js:22-24 | CI mode holds exactly when one of `CI`, `CONTINUOUS_INTEGRATION`, `NUKE_SKIP_SETUP` is set to exactly `"true"` |
| Postinstall.Choose | scripts/postinstall.js:72-95 | the `switch` on the trimmed answer; its meaning is stated by `TargetTable` and `ChooseIgnoresSurroundingWhiteSpace` |
| Postinstall.Target | scripts/postinstall.js:72-98 | the target path given both answers, or none for a skip; its meaning is stated by `TargetTable` |
| Postinstall.TargetTable | scripts/postinstall.js:72-98 | the menu is total: `'1'` and `''` target `./nuke-theme`, `'2'` targets `./src/styles/nuke-theme`, `'3'` targets the trimmed custom path, and everything else skips; anything but `'4'` is reported as invalid |
| Postinstall.ChooseIgnoresSurroundingWhiteSpace | scripts/postinstall.js:73 | white space typed around a choice does not change the choice |
| Postinstall.Join | scripts/postinstall.js:102 | POSIX `path.join` onto an absolute, normalised base; its meaning is stated by `JoinRootTarget`, `JoinDotName` and `JoinEmpty` |
| Postinstall.Split | scripts/postinstall.js:102 | splitting a path on `/` gives at least one segment |
| Postinstall.JoinRootTarget | scripts/postinstall.js:102 | `path.join(root, './nuke-theme')` is `root/nuke-theme` |
| Postinstall.JoinDotName | scripts/postinstall.js:102 | `path.join(root, './name')` is `root/name` for a plain name |
| Postinstall.SplitDotName | scripts/postinstall.js:102 | `'./name'` splits into `.` and the name |
| Postinstall.SplitName | scripts/postinstall.js:102 | a name without `/` splits into itself |
| Postinstall.SplitAt | scripts/postinstall.js:102 | splitting cuts at the first `/` |
| Postinstall.JoinEmpty | scripts/postinstall.js:102 | an empty custom path targets the project root itself |
| Postinstall.Disk.constructor | scripts/postinstall.js:32 | the disk starts with the given tree and `.nukerc` record |
| Postinstall.Disk.ExistsSync | scripts/postinstall.js:48-52 | `existsSync` holds exactly when something is at the path |
| Postinstall.Disk.MkdirSync | scripts/postinstall.js:105 | `mkdirSync` succeeds and changes the tree exactly as `MkdirP` says, or throws and changes nothing |
| Postinstall.Disk.CopyFileSync | scripts/postinstall.js:139 | `copyFileSync` succeeds and changes the tree exactly as `CopyFile` says (see `CopyFileSpec`), or throws and changes nothing |
| Postinstall.Disk.WriteConfig | scripts/postinstall.js:111-112 | `.nukerc` afterwards records the given `themePath` |
| Postinstall.CopyRecursive | scripts/postinstall.js:128-141 | the recursive copy with its loop over entries succeeds exactly when `CopyTree` does, and leaves the tree `CopyTree` describes, also when a step throws |
| Postinstall.CopyThemeOutcome | scripts/postinstall.js:100-108 | the join, `mkdirSync` and `copyRecursive` steps of `copyTheme`; its meaning is stated by `CopyThemeComplete`, `CopyThemeKeepsProject` and `CopiedIsConfigured` |
| Postinstall.CopyTheme | scripts/postinstall.js:100-126 | `.nukerc` is written only when creating the target and copying the whole theme both succeeded; after a throw the earlier record stays, as does what was copied so far |
| Postinstall.CopyThemeComplete | scripts/postinstall.js:100-126 | after a successful `copyTheme`, the target is a directory holding every path of the theme with the theme's content |
| Postinstall.CopyThemeKeepsProject | scripts/postinstall.js:100-126 | `copyTheme` keeps every existing path; its content changes only where the theme has the same relative path under the target, and directories stay directories |
| Postinstall.Setup | scripts/postinstall.js:22-98 | in CI the run ends with no prompt and no change; otherwise, when `.nukerc` names an existing path, it ends as already configured with no prompt and no change; otherwise one prompt is asked, or two for choice 3, and the theme is copied to the chosen target, or nothing happens on skip |
| Postinstall.SetupTwice | scripts/postinstall.js:46-58 | a second run after a successful copy ends as already configured without asking anything |
| Postinstall.CopiedIsConfigured | scripts/postinstall.js:100-112 | a completed copy leaves the recorded target present, so the early exit applies on the next run |

## Left out

- Console output, ANSI colours, the banner, `skipSetup` and `showNextSteps` text: these are presentation only.
- `readline`, `process.exit`, `process.cwd` and `process.env`: the answers, the environment map and the project root are parameters.
- JSON parsing and writing of `.nukerc`: the record is the parsed `themePath`. A failed `writeFileSync` is not modelled, and `.nukerc` is kept apart from the file tree, so a theme file named `.nukerc` copied into the project root is not modelled either.
- A `.nukerc` that is not valid JSON, or whose `themePath` is not a string, makes the script throw before prompting. This is not modelled.
- The theme folder is read-only and lies apart from the target. Copying a folder into itself, symbolic links, permissions, and a missing theme folder are not modelled.
- Postinstall.Join: only the POSIX form of `path.join` is modelled, for an absolute, normalised base. Windows separators are not modelled.
- Postinstall.JoinDotName: it covers one plain name after `./`, which is choice 1. Where `./src/styles/nuke-theme` (choice 2) lands is not stated as a lemma; `Setup` still copies to whatever `Join` gives for it.
- `docs/astro.config.mjs` (build configuration) and `core/core.js` (side-effect imports of other components) are not part of this model.
- `customElements.define`, CSS transitions and rendering: a callback runs only when `Window.RunTask` picks it, a click only when `Window.Click` delivers it, and wall-clock time is not modelled. Only the delay each timeout was given is kept, not the 32-bit clamp browsers apply to it.
- JsText.ParseInt: floating-point rounding of very long digit runs is not modelled, and -0 is treated as 0 (`|| 0` makes both 0 anyway).
- Strings are sequences of Unicode scalar values, so UTF-16 surrogate pairs are not modelled.
- Toast.NukeToast.Show: `options.duration` is taken as the string `setAttribute` stores; the number-to-string conversion is not modelled. The guard on `options.style` skips `classList.add` for a missing or empty style, which the model writes as the empty string. A style that contains white space makes `classList.add` throw in a browser; the model adds it as one class and does not model the throw.
- Toast.NukeToast.ConnectedCallback: reconnecting a toast appends a second close button and arms another timer. The model allows this, as the source does, but states nothing about sequences of reconnections. Connection is modelled for toasts on the page; a parent other than the container is not modelled.
- Toast.Window.RemoveElement: only the container is modelled as a parent. A declarative toast placed elsewhere in the page is not tracked after removal.

## Findings

| source | as written | input that shows it | evidently intended | confidence | as-written member | corrected member |
|---|---|---|---|---|---|---|
| core/toast/toast.core.js:36 | the close button's text is the two characters U+00C3 U+2014 ("Ã—"), the UTF-8 bytes of "×" read back as Windows-1252 | any connected toast: its close button shows "Ã—" | the single multiplication sign U+00D7 ("×") | not executed; the bytes C3 83 E2 80 94 in the file decode as shown | Toast.CloseButtonAsWritten | Toast.CloseButton |
