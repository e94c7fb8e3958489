/**
 * The project dialog (`ProjectModal`): its mount effect, which locks page
 * scrolling, remembers the focused element, defers focusing the dialog and
 * listens for keys; the key listener's Escape handling and Tab focus trap; the
 * effect cleanup; and the card activation key adapter `cardKeyHandler`.
 */
module ProjectModal {
  import opened Wrappers
  import opened AnimationFrames
  import opened Dom

  type ListenerId = nat

  /** The body class that locks background scrolling while a dialog is open. */
  const ModalOpen: string := "modal-open"

  /**
   * The trap's decision on a Tab key press, given the focusable list and the
   * focused element: the element to move focus to, with the default action
   * prevented, or None when the press is left to the browser.
   */
  function TrapMove(focusables: seq<Element>, active: Option<ElementId>, shift: bool): (r: Option<Element>)
    ensures focusables == [] ==> r == None
    ensures r.Some? ==> r.value in focusables
    ensures focusables != [] && shift && active == Some(focusables[0].id) ==> r == Some(focusables[|focusables| - 1])
    ensures focusables != [] && !shift && active == Some(focusables[|focusables| - 1].id) ==> r == Some(focusables[0])
    ensures r.Some? ==>
              && focusables != []
              && ((shift && active == Some(focusables[0].id)) || (!shift && active == Some(focusables[|focusables| - 1].id)))
  {
    if |focusables| == 0 then None
    else
      var first, last := focusables[0], focusables[|focusables| - 1];
      if shift && active == Some(first.id) then Some(last)
      else if !shift && active == Some(last.id) then Some(first)
      else None
  }

  /**
   * Where focus lands after Tab (Shift+Tab) on the k-th focusable element:
   * where the trap moves it, or else where the browser's default moves it,
   * the next (previous) focusable element in document order.
   */
  function FocusAfterTab(focusables: seq<Element>, k: nat, shift: bool): Element
    requires k < |focusables|
  {
    match TrapMove(focusables, Some(focusables[k].id), shift)
    case Some(target) => target
    case None => if shift then focusables[k - 1] else focusables[k + 1]
  }

  /** The next and previous positions in a cycle of length n. */
  lemma CyclicNeighbours(k: nat, n: nat)
    requires k < n
    ensures (k + 1) % n == if k == n - 1 then 0 else k + 1
    ensures (k + n - 1) % n == if k == 0 then n - 1 else k - 1
  {
  }

  /**
   * Together with the browser's default, the trap makes Tab cycle through the
   * focusables: Tab moves to the next one modulo their number, Shift+Tab to
   * the previous one.
   */
  lemma TabCycles(focusables: seq<Element>, k: nat, shift: bool)
    requires DistinctIds(focusables) && k < |focusables|
    ensures var n := |focusables|;
            FocusAfterTab(focusables, k, shift) == if shift then focusables[(k + n - 1) % n] else focusables[(k + 1) % n]
  {
    var n := |focusables|;
    CyclicNeighbours(k, n);
    var next := if shift then (k + n - 1) % n else (k + 1) % n;
    var trap := TrapMove(focusables, Some(focusables[k].id), shift);
    if shift && k == 0 {
      assert next == n - 1;
      assert trap == Some(focusables[n - 1]);
    } else if shift {
      assert next == k - 1;
      assert focusables[0].id != focusables[k].id;
      assert trap == None;
    } else if k == n - 1 {
      assert next == 0;
      assert trap == Some(focusables[0]);
    } else {
      assert next == k + 1;
      assert focusables[k].id != focusables[n - 1].id;
      assert trap == None;
    }
  }

  /** With a single focusable element, Tab and Shift+Tab keep focus on it. */
  lemma SingleFocusableStays(e: Element, shift: bool)
    ensures FocusAfterTab([e], 0, shift) == e
  {
  }

  /**
   * The page state the dialog touches: the body's class list, the window's
   * keydown listeners, the focused element (`document.activeElement`, None
   * for none) and the animation-frame queue.
   */
  class Page {
    var bodyClasses: set<string>
    var keydownListeners: set<ListenerId>
    var activeElement: Option<ElementId>
    var frames: FrameQueue

    constructor (bodyClasses: set<string>, keydownListeners: set<ListenerId>, activeElement: Option<ElementId>, frames: FrameQueue)
      requires frames.Valid()
      ensures this.bodyClasses == bodyClasses && this.keydownListeners == keydownListeners
      ensures this.activeElement == activeElement && this.frames == frames
    {
      this.bodyClasses := bodyClasses;
      this.keydownListeners := keydownListeners;
      this.activeElement := activeElement;
      this.frames := frames;
    }

    /** `document.body.classList.add(c)`: a class list is a set, so adding twice is adding once. */
    method AddBodyClass(c: string)
      modifies this`bodyClasses
      ensures bodyClasses == old(bodyClasses) + {c}
    {
      bodyClasses := bodyClasses + {c};
    }

    /** `document.body.classList.remove(c)`: one removal clears the class. */
    method RemoveBodyClass(c: string)
      modifies this`bodyClasses
      ensures bodyClasses == old(bodyClasses) - {c}
    {
      bodyClasses := bodyClasses - {c};
    }

    /**
     * `window.addEventListener("keydown", l)`: a window keeps each listener
     * once, so registering one that is already there changes nothing.
     */
    method AddKeydownListener(l: ListenerId)
      modifies this`keydownListeners
      ensures keydownListeners == old(keydownListeners) + {l}
    {
      keydownListeners := keydownListeners + {l};
    }

    /** `window.removeEventListener("keydown", l)`. */
    method RemoveKeydownListener(l: ListenerId)
      modifies this`keydownListeners
      ensures keydownListeners == old(keydownListeners) - {l}
    {
      keydownListeners := keydownListeners - {l};
    }

    /** `e.focus()`. */
    method Focus(e: ElementId)
      modifies this`activeElement
      ensures activeElement == Some(e)
    {
      activeElement := Some(e);
    }

    /** `requestAnimationFrame`. */
    method RequestFrame() returns (h: FrameHandle)
      requires frames.Valid()
      modifies this`frames
      ensures frames.Valid() && h != 0 && h !in old(frames.pending)
      ensures frames.pending == old(frames.pending) + {h}
    {
      var q := frames.Request();
      frames := q.0;
      h := q.1;
    }

    /** `cancelAnimationFrame(h)`, and the browser taking frame `h` off the queue to run it. */
    method CancelFrame(h: FrameHandle)
      requires frames.Valid()
      modifies this`frames
      ensures frames == old(frames).Cancel(h)
    {
      frames := frames.Cancel(h);
    }
  }

  /**
   * One mounted dialog. `container` is `modalRef.current` (None while it is
   * null) and `descendants` its subtree in document order; `prev`, `raf` and
   * `handler` are what the effect captured: the previously focused element,
   * the deferred-focus frame and the keydown listener.
   */
  class Dialog {
    const page: Page
    const container: Option<Element>
    const descendants: seq<Element>
    var prev: Option<ElementId>
    var raf: FrameHandle
    var handler: ListenerId
    var effectActive: bool

    constructor (page: Page, container: Option<Element>, descendants: seq<Element>)
      ensures this.page == page && this.container == container && this.descendants == descendants
      ensures !effectActive
    {
      this.page := page;
      this.container := container;
      this.descendants := descendants;
      prev := None;
      raf := 0;
      handler := 0;
      effectActive := false;
    }

    /**
     * The effect: lock scrolling, capture the focused element, defer focusing
     * the container to the next frame, and register the freshly made key
     * listener `handler` on the window.
     */
    method Open(handler: ListenerId)
      requires !effectActive && page.frames.Valid()
      requires handler !in page.keydownListeners
      modifies this`prev, this`raf, this`handler, this`effectActive, page
      ensures effectActive && this.handler == handler
      ensures page.bodyClasses == old(page.bodyClasses) + {ModalOpen}
      ensures prev == old(page.activeElement) && page.activeElement == old(page.activeElement)
      ensures page.frames.Valid() && raf != 0 && raf !in old(page.frames.pending)
      ensures page.frames.pending == old(page.frames.pending) + {raf}
      ensures page.keydownListeners == old(page.keydownListeners) + {handler}
      ensures |page.keydownListeners| == |old(page.keydownListeners)| + 1
    {
      page.AddBodyClass(ModalOpen);
      prev := page.activeElement;
      raf := page.RequestFrame();
      this.handler := handler;
      page.AddKeydownListener(handler);
      effectActive := true;
    }

    /** The deferred focus: the browser runs frame `raf` and focuses the container, if mounted. */
    method DeferredFocus()
      requires page.frames.Valid() && raf in page.frames.pending
      modifies page
      ensures page.frames == old(page.frames).Cancel(raf)
      ensures page.activeElement == if container.Some? then Some(container.value.id) else old(page.activeElement)
      ensures page.bodyClasses == old(page.bodyClasses) && page.keydownListeners == old(page.keydownListeners)
    {
      page.CancelFrame(raf);
      if container.Some? {
        page.Focus(container.value.id);
      }
    }

    /**
     * The key listener. Escape asks the host to close, once. Tab with a
     * mounted container applies the focus trap over its focusable
     * descendants. Every other key does nothing. `closeCalls` counts the calls
     * of `onClose`, `prevented` whether `preventDefault` was called.
     */
    method HandleKey(key: string, shift: bool) returns (closeCalls: nat, prevented: bool)
      requires handler in page.keydownListeners
      modifies page`activeElement
      ensures closeCalls == if key == "Escape" then 1 else 0
      ensures prevented <==> key == "Tab" && container.Some? &&
                             TrapMove(FocusableIn(descendants), old(page.activeElement), shift).Some?
      ensures page.activeElement ==
                if prevented then Some(TrapMove(FocusableIn(descendants), old(page.activeElement), shift).value.id)
                else old(page.activeElement)
    {
      closeCalls, prevented := 0, false;
      if key == "Escape" {
        closeCalls := 1;
        return;
      }
      if key == "Tab" && container.Some? {
        var focusable := FocusableIn(descendants);
        if |focusable| == 0 {
          return;
        }
        var first, last := focusable[0], focusable[|focusable| - 1];
        if shift && page.activeElement == Some(first.id) {
          prevented := true;
          page.Focus(last.id);
        } else if !shift && page.activeElement == Some(last.id) {
          prevented := true;
          page.Focus(first.id);
        }
      }
    }

    /**
     * The effect cleanup: cancel the deferred focus, unlock scrolling,
     * unregister the listener and focus the captured element when there was
     * one, whether or not it is still in the document.
     */
    method Close()
      requires effectActive && page.frames.Valid()
      modifies this`effectActive, page
      ensures !effectActive
      ensures page.frames == old(page.frames).Cancel(raf)
      ensures page.bodyClasses == old(page.bodyClasses) - {ModalOpen}
      ensures page.keydownListeners == old(page.keydownListeners) - {handler}
      ensures page.activeElement == if prev.Some? then prev else old(page.activeElement)
    {
      page.CancelFrame(raf);
      page.RemoveBodyClass(ModalOpen);
      page.RemoveKeydownListener(handler);
      if prev.Some? {
        page.Focus(prev.value);
      }
      effectActive := false;
    }
  }

  /**
   * Opening a dialog and closing it again with no event in between leaves the
   * page as it was, except that scrolling is unlocked; in particular the
   * listeners and pending frames are restored and the deferred focus can no
   * longer run. The listener is no longer registered, so it receives no key.
   */
  method OpenThenClose(d: Dialog, handler: ListenerId)
    requires !d.effectActive && d.page.frames.Valid()
    requires handler !in d.page.keydownListeners
    modifies d, d.page
    ensures d.page.keydownListeners == old(d.page.keydownListeners) && handler !in d.page.keydownListeners
    ensures d.page.frames.pending == old(d.page.frames.pending) && d.raf !in d.page.frames.pending
    ensures d.page.bodyClasses == old(d.page.bodyClasses) - {ModalOpen}
    ensures d.page.activeElement == old(d.page.activeElement)
  {
    d.Open(handler);
    d.Close();
    assert d.page.keydownListeners == old(d.page.keydownListeners) + {handler} - {handler};
  }

  /**
   * `cardKeyHandler(handler)` applied to a key event: Enter and Space
   * activate the card, calling `preventDefault` and the handler once each;
   * every other key does neither.
   */
  method CardKeyHandler(key: string) returns (prevented: bool, handlerCalls: nat)
    ensures prevented <==> key == "Enter" || key == " "
    ensures handlerCalls == if prevented then 1 else 0
  {
    prevented, handlerCalls := false, 0;
    if key == "Enter" || key == " " {
      prevented := true;
      handlerCalls := handlerCalls + 1;
    }
  }
}
