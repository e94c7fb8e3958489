# Portfolio site: text scramble and project dialog, modelled in Dafny

This project models the two pieces of behaviour in the portfolio site that are
more than markup.

- **The text-scramble hook** (`useTextScramble`). A heading starts out showing
  its text. When its trigger turns on, the hook runs an animation-frame loop.
  Each executed tick publishes a frame of the same length as the text. Spaces
  stay spaces. Positions below the reveal counter `iter` show the true
  character. All other positions show a random glyph of the 69-symbol
  alphabet `CHARS`. After the frame, `iter` grows by 0.5, and the loop
  continues while `iter <= text.length`. A tick that comes less than `speed`
  ms after the last executed tick only reschedules itself. The effect cleanup
  cancels the pending frame.
- **The project dialog** (`ProjectModal`) and the card key adapter
  (`cardKeyHandler`). Opening the dialog adds the `modal-open` body class,
  remembers the focused element, defers focusing the dialog to the next
  animation frame and registers a keydown listener. Escape calls `onClose`.
  Tab and Shift+Tab wrap focus between the last and the first focusable
  descendant. Closing undoes each of these steps and focuses the remembered
  element again. `cardKeyHandler` turns Enter and Space into a card activation.

Files:

- `wrappers.dfy`: `Option`, standing for a nullable value.
- `seqs.dfy`: a generic sequence fact used by the proofs.
- `frames.dfy`: the animation-frame queue (`requestAnimationFrame`,
  `cancelAnimationFrame`) as a value with positive handles.
- `text_scramble.dfy`: the alphabet, the frame builder `Frame`, the frames of
  a whole run (`RunFrames`), and the class `Scrambler`. The class holds the
  hook's refs and state, with the tick, start, effect and cleanup as methods.
- `dom.dfy`: elements, the focusable-element selector and the query for the
  focusable descendants in document order.
- `project_modal.dfy`: the trap decision `TrapMove`, the page state `Page`,
  the dialog `Dialog` (open effect, deferred focus, key listener, cleanup) and
  `CardKeyHandler`.

Modelling choices:

- `iter` is the natural number `half` of half-steps, so `iter == half / 2`.
  The test `i < iter` becomes `2 * i < half`. The loop condition
  `iter <= text.length` becomes `half <= 2 * |text|`.
- `speed` is a parameter of the instance. The hook's default of 30 ms is the
  constant `DefaultSpeed`.
- `Math.random()` is an oracle. Each executed tick receives one index below 69
  per position (`GlyphIndex`), and the frame uses it where a glyph is shown.
- Clock readings are natural-number milliseconds. The gate compares
  `now - last` as an integer, so a frame time earlier than the start time is
  simply gated.
- `requestAnimationFrame` hands out fresh positive handles, so a stored handle
  is always truthy. A frame that runs is taken off the queue like a cancelled
  one.
- Elements are records with an identity, a lower-case tag name and an
  attribute map. `document.activeElement` is the identity of the focused
  element, or `None`.
- The window keeps each keydown listener once, as `addEventListener` does, so
  the listener registry is a set.
- `onClose()`, `preventDefault()` and the card handler are observed as call
  counts and flags returned by the methods.

Points where the code is more specific than a reader of the component might
expect, and which the model follows:

- `CHARS` has 26 + 26 + 10 + 7 = 69 glyphs (`AlphabetSpelledOut`,
  `AlphabetSize`).
- The reveal test is `i < iter` with a half-step `iter`. After the tick at
  half-step `half`, the first ceil(`half` / 2) characters are settled, not
  floor(`half` / 2) (`SettledPrefix`).
- The cleanup focuses the remembered element whenever it was not null. The
  code does not check that the element is still in the document
  (`Dialog.Close`).
- The cleanup cancels `rafRef` only when it is truthy, and never clears it. A
  handle whose frame already ran may be cancelled again, which changes nothing
  (`Scrambler.Cleanup`, `FrameQueue.Cancel`).

## Model

| member | source | states |
|---|---|---|
| `TextScramble.CHARS` | hooks/use-text-scramble.ts:5 | the glyph alphabet, built from the ranges A–Z, a–z and 0–9 followed by `!@#$%&*` |
| `TextScramble.AlphabetSpelledOut` | hooks/use-text-scramble.ts:5 | the alphabet is exactly A–Z, a–z, 0–9 and `!@#$%&*`, in that order |
| `TextScramble.AlphabetSize` | hooks/use-text-scramble.ts:5 | the alphabet has 69 glyphs, so every random index selects one |
| `TextScramble.Frame` | hooks/use-text-scramble.ts:24-31 | a frame has the text's length; a space shows a space; a non-space position `i` shows `text[i]` when `2 * i < half`, otherwise the glyph `CHARS[draw]` |
| `TextScramble.FinalFrame` | hooks/use-text-scramble.ts:28 | the frame built at `iter == text.length` is the text itself |
| `TextScramble.SettledPrefix` | hooks/use-text-scramble.ts:28 | at half-step `half` the first ceil(`half` / 2) characters, capped at the length, equal the text's |
| `TextScramble.SettledStaysSettled` | hooks/use-text-scramble.ts:28 | a position revealed at one half-step shows the true character at every later half-step, whatever the draws |
| `TextScramble.RunFrames` | hooks/use-text-scramble.ts:34-38 | the frames a run publishes from a given half-step on, one per executed tick, continuing while `iter <= text.length` |
| `TextScramble.RunFramesAt` | hooks/use-text-scramble.ts:34-38 | a run from half-step `h` publishes exactly `2 * len + 1 - h` frames, the k-th one built at half-step `h + k` |
| `TextScramble.RunEndsWithText` | hooks/use-text-scramble.ts:34-38 | a run from `iter == 0` executes exactly `2 * len + 1` ticks and its last frame is the text |
| `TextScramble.Scrambler.constructor` | hooks/use-text-scramble.ts:8-11 | before any trigger the displayed value is the text, no frame is held, `iter` and `last` are 0 |
| `TextScramble.Scrambler.Scramble` | hooks/use-text-scramble.ts:13-15 | resets `iter` to 0 and `last` to the current time, and schedules exactly one new frame without cancelling any other; from an idle instance this starts a single chain |
| `TextScramble.Scrambler.Tick` | hooks/use-text-scramble.ts:17-39 | a tick within `speed` of `last` changes nothing but scheduling one next frame; an executed tick sets `last := now`, publishes `Frame` for the current half-step, adds one half-step and schedules a next frame iff `iter <= len`; it keeps spaces on display and the single chain, and the tick that stops the chain leaves the text on display |
| `TextScramble.Scrambler.Effect` | hooks/use-text-scramble.ts:44-45 | runs only after the previous effect was cleaned up; starts a run exactly when the trigger is set |
| `TextScramble.Scrambler.Cleanup` | hooks/use-text-scramble.ts:46-48 | runs only after its effect; cancels the held frame only when the stored handle is truthy; on a single chain nothing is left pending, so nothing more is published |
| `TextScramble.Scrambler.PlayThrough` | hooks/use-text-scramble.ts:13-41 | a triggered run, with its frames delivered at any positive interval, gated ticks included, terminates with nothing pending after publishing exactly the frames of `RunFrames`, and leaves the text on display |
| `AnimationFrames.FrameQueue.Request` | hooks/use-text-scramble.ts:19 | a new frame handle is non-zero and not already pending, and it becomes pending |
| `AnimationFrames.FrameQueue.Cancel` | hooks/use-text-scramble.ts:47 | the handle stops being pending; an unknown or already-run handle changes nothing |
| `Dom.Focusable` | components/project-modal.tsx:29 | the selector string, alternative by alternative |
| `Dom.SelectorCases` | components/project-modal.tsx:29 | native form controls always match, disabled or hidden ones included; `tabindex="-1"` removes only elements that would match through a tabindex; any other element, an `iframe` or an anchor without `href` included, matches only through a tabindex other than "-1" |
| `Dom.FocusableIn` | components/project-modal.tsx:28-30 | `querySelectorAll` over the descendants in document order, never longer than they are; its contents and order are stated by the two lemmas below |
| `Dom.FocusableInMembers` | components/project-modal.tsx:28-30 | an element is in the focusable list exactly when it is a descendant that matches the selector |
| `Dom.FocusableInConcat` | components/project-modal.tsx:28-30 | the focusable list keeps document order: the query distributes over concatenation |
| `Dom.NoneFocusable` | components/project-modal.tsx:31 | descendants none of which match give an empty list, so Tab does nothing |
| `Dom.FirstFocusable` | components/project-modal.tsx:32 | `first` is the first matching descendant in document order |
| `Dom.LastFocusable` | components/project-modal.tsx:33 | `last` is the last matching descendant in document order |
| `Dom.ContainerNotFocusable` | components/project-modal.tsx:76 | the dialog container, a `div` with `tabindex="-1"`, never matches the selector |
| `ProjectModal.TrapMove` | components/project-modal.tsx:31-41 | no move with no focusables; Shift+Tab on the first moves to the last; Tab on the last moves to the first; no other Tab press moves focus; a move always lands on a focusable descendant |
| `ProjectModal.TabCycles` | components/project-modal.tsx:35-41 | with the browser's default movement to the adjacent focusable, Tab moves to focusable `(k + 1) mod n` and Shift+Tab to `(k - 1) mod n` |
| `ProjectModal.SingleFocusableStays` | components/project-modal.tsx:32-41 | with one focusable element, first equals last and focus stays on it |
| `ProjectModal.Page.AddBodyClass` | components/project-modal.tsx:16 | the class list is a set: adding a class that is present changes nothing |
| `ProjectModal.Page.RemoveBodyClass` | components/project-modal.tsx:49 | one removal clears the class |
| `ProjectModal.Page.AddKeydownListener` | components/project-modal.tsx:45 | the listener is registered, once |
| `ProjectModal.Page.RemoveKeydownListener` | components/project-modal.tsx:50 | the listener is no longer registered |
| `ProjectModal.Page.Focus` | components/project-modal.tsx:37 | the element becomes the focused one |
| `ProjectModal.Page.RequestFrame` | components/project-modal.tsx:19 | a fresh non-zero frame becomes pending |
| `ProjectModal.Page.CancelFrame` | components/project-modal.tsx:48 | the frame stops being pending |
| `ProjectModal.Dialog.constructor` | components/project-modal.tsx:12-13 | a mounted dialog with its container reference and no effect yet |
| `ProjectModal.Dialog.Open` | components/project-modal.tsx:15-45 | adds `modal-open`, captures the focused element without moving focus, schedules one fresh deferred-focus frame, and adds exactly one keydown listener |
| `ProjectModal.Dialog.DeferredFocus` | components/project-modal.tsx:19 | when the frame runs, focus moves to the container if it is mounted |
| `ProjectModal.Dialog.HandleKey` | components/project-modal.tsx:21-43 | Escape calls `onClose` exactly once and neither prevents the default nor moves focus; Tab prevents the default and moves focus exactly as `TrapMove` decides over the focusable descendants, and does nothing when the container is null; any other key does nothing |
| `ProjectModal.Dialog.Close` | components/project-modal.tsx:47-52 | cancels the deferred focus, removes `modal-open`, unregisters the listener and focuses the captured element whenever it was non-null |
| `ProjectModal.OpenThenClose` | components/project-modal.tsx:15-52 | opening then closing restores the listeners and pending frames, leaves `modal-open` absent and focus where it was, and the deferred focus can no longer run |
| `ProjectModal.CardKeyHandler` | components/project-modal.tsx:108-115 | `preventDefault` and the handler are called once each iff the key is "Enter" or " ", and neither is called otherwise |

## Left out

- Rendering: the JSX of both components, the `motion/react` animations and
  the dialog's backdrop and close button. Those call `onClose`, which belongs
  to the host.
- The rest of the site: page sections, project data, header, footer, tilt
  cards, the sitemap. They are markup, content or floating-point animation.
- React itself. Effects run and clean up in pairs, and they re-run only when
  their dependencies change. The model offers each effect and its cleanup as
  methods. `Scrambler` and `Dialog` each keep a flag for a pending cleanup,
  so an effect can only run again after its cleanup. The model does not
  cover dependency tracking or re-rendering. The rule that a still-true
  trigger never restarts a run comes from that tracking, so it is not
  stated.
- `useInView`, which drives the trigger in the section headings.
- Floating-point time and the uniform distribution of `Math.random`. Time is
  whole milliseconds. The draws are any indices below 69.
- UTF-16: the hook splits the text into UTF-16 code units, and the model
  splits it into characters.
- The browser's focus rules. Focusing a detached, disabled or hidden element
  is modelled as focusing it, and the selector does not exclude disabled
  controls, just as the code does not.
- `ProjectModal.TabCycles` assumes that the browser's own Tab order over the
  dialog is exactly `FocusableIn(descendants)`. Only then does the default
  Tab move to the adjacent element of that list. The premise fails in both
  directions:
  - The browser also tabs to elements the selector does not list, such as an
    embedded `iframe` player.
  - The selector lists elements the browser skips: disabled controls and
    `input type="hidden"`.
  - Positive `tabindex` values also reorder the browser's Tab order.
- In a dialog whose only matching element is its close button, followed by
  an `iframe`, `TrapMove` keeps focus on the close button for both Tab and
  Shift+Tab (`SingleFocusableStays`). The player then cannot be reached by
  keyboard. The model states this for the selector as written. It does not
  model a corrected selector.
- `DefaultSpeed` is a constant. The model takes `speed` as a parameter and
  does not model JavaScript default arguments.
