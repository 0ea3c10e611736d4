/** The `<nuke-toast>` notification element (core/toast/toast.core.js).

    The element is an object whose class set, attribute map, child list and
    pending auto-dismiss timer are updated in place. The page is a `Window`
    object: the shared `.nuke-toast-container` (authored in the page or
    created by the first programmatic toast) and the event loop's queue of
    pending callbacks (`setTimeout` and `requestAnimationFrame`). Nothing
    runs by itself: a callback runs when `Window.RunTask` picks it, a click
    handler when `Window.Click` delivers a click, and wall-clock time is not
    modelled, only the delay each timeout was given. */
module Toast {
  import opened Wrappers
  import opened JsText

  /** The variant classes are `zen` (the default), `soft` and `solid`. */
  const DefaultVariant := "zen"

  predicate HasVariant(classes: set<string>) {
    "zen" in classes || "soft" in classes || "solid" in classes
  }
  /** Delay between `dismiss` and the element's removal, in milliseconds. */
  const SettleDelay := 300
  /** The `duration` attribute `NukeToast.show` writes when none is given. */
  const DefaultDuration := "3000"
  const CloseLabel := "Close notification"
  /** The close button's text as the source file spells it: the UTF-8 bytes
      of U+00D7 decoded once more as Windows-1252, i.e. U+00C3 U+2014. */
  const CloseGlyphAsWritten := "\U{00C3}\U{2014}"
  /** The multiplication sign U+00D7 that the close button evidently means. */
  const CloseGlyph := "\U{00D7}"

  /** Positive integer handles, as `setTimeout` returns them. */
  type TimerId = x: nat | x > 0 witness 1

  /** What a queued callback or a click handler does when it runs. */
  datatype Action =
    | AddShow(toast: NukeToast)   // the animation-frame callback of connectedCallback
    | CallDismiss(toast: NukeToast)   // the auto-dismiss timer and the close button
    | CallRemove(toast: NukeToast)   // the removal timer of dismiss

  /** A pending callback of the event loop. */
  datatype Task =
    | AnimationFrame(action: Action)
    | Timeout(id: TimerId, delay: int, action: Action)

  /** A child node the toast creates; these are never changed after they are
      appended, so a value describes them. */
  datatype Child = Child(
    tag: string,
    classes: set<string>,
    attributes: map<string, string>,
    text: string,
    onClick: Option<Action>)

  /** The close control `addCloseButton` builds, with the corrected glyph: a
      `button.toast-close` labelled for screen readers, showing the single
      multiplication sign, whose click dismisses its owner. */
  function CloseButton(owner: NukeToast): (b: Child)
    ensures b.tag == "button" && b.classes == {"toast-close"}
    ensures "aria-label" in b.attributes && b.attributes["aria-label"] == CloseLabel
    ensures |b.text| == 1 && b.text[0] == '\U{00D7}'
    ensures b.onClick == Some(CallDismiss(owner))
  {
    Child("button", {"toast-close"}, map["aria-label" := CloseLabel], CloseGlyph, Some(CallDismiss(owner)))
  }

  /** The close control exactly as written, whose text is two characters. */
  function CloseButtonAsWritten(owner: NukeToast): (b: Child)
    ensures b.text != CloseGlyph && |b.text| == 2
    ensures b == CloseButton(owner).(text := CloseGlyphAsWritten)
  {
    Child("button", {"toast-close"}, map["aria-label" := CloseLabel], CloseGlyphAsWritten, Some(CallDismiss(owner)))
  }

  /** The `span.toast-message` holding the text given to `NukeToast.show`. */
  function MessageSpan(message: string): Child {
    Child("span", {"toast-message"}, map[], message, None)
  }

  /** The class set after connecting: `zen` is added exactly when no variant
      class is present, and nothing is removed. */
  function WithDefaultVariant(classes: set<string>): (r: set<string>)
    ensures HasVariant(r)
    ensures classes <= r && r - classes <= {DefaultVariant}
    ensures DefaultVariant in r - classes <==> !HasVariant(classes)
  {
    if "zen" !in classes && "soft" !in classes && "solid" !in classes then classes + {"zen"} else classes
  }

  /** The class set after `dismiss`: `show` swapped for `hide`, every other
      class kept. */
  function AfterDismiss(classes: set<string>): (r: set<string>)
    ensures "show" !in r && "hide" in r
    ensures forall c :: c != "show" && c != "hide" ==> (c in r <==> c in classes)
  {
    classes - {"show"} + {"hide"}
  }

  /** `parseInt(this.getAttribute('duration')) || 0`: a missing attribute is
      read as the string "null", and NaN becomes 0. */
  function DurationOf(attributes: map<string, string>): int {
    var raw := if "duration" in attributes then attributes["duration"] else "null";
    match ParseInt(raw)
    case None => 0
    case Some(n) => n
  }

  /** The pending queue after `clearTimeout(id)`: the timeout with that handle,
      if still pending, is dropped; every other task stays. */
  function CancelTimer(queue: seq<Task>, id: TimerId): (r: seq<Task>)
    ensures |r| <= |queue|
    ensures forall k :: 0 <= k < |r| ==> !(r[k].Timeout? && r[k].id == id)
    ensures forall k :: 0 <= k < |r| ==> r[k] in queue
    ensures forall k :: 0 <= k < |queue| && !(queue[k].Timeout? && queue[k].id == id) ==> queue[k] in r
  {
    if queue == [] then []
    else (if queue[0].Timeout? && queue[0].id == id then [] else [queue[0]]) + CancelTimer(queue[1..], id)
  }

  /** A parent's child list after `toast.remove()`. */
  function Detach(toasts: seq<NukeToast>, t: NukeToast): (r: seq<NukeToast>)
    ensures forall k :: 0 <= k < |r| ==> r[k] in toasts && r[k] != t
    ensures forall k :: 0 <= k < |toasts| && toasts[k] != t ==> toasts[k] in r
    ensures |r| <= |toasts|
  {
    if toasts == [] then []
    else (if toasts[0] == t then [] else [toasts[0]]) + Detach(toasts[1..], t)
  }

  /** Removal keeps the other children in their order: it works piece by
      piece, and a single child goes exactly when it is the toast. */
  lemma {:induction false} DetachConcat(a: seq<NukeToast>, b: seq<NukeToast>, t: NukeToast)
    ensures Detach(a + b, t) == Detach(a, t) + Detach(b, t)
  {
    if a == [] {
      assert a + b == b;
    } else {
      assert (a + b)[1..] == a[1..] + b;
      DetachConcat(a[1..], b, t);
    }
  }

  lemma DetachSingle(x: NukeToast, t: NukeToast)
    ensures Detach([x], t) == if x == t then [] else [x]
  {
    assert [x][1..] == [];
  }

  /** Removing the toast appended last restores the list it was added to. */
  lemma {:induction false} DetachLast(s: seq<NukeToast>, t: NukeToast)
    requires t !in s
    ensures Detach(s + [t], t) == s
  {
    DetachConcat(s, [t], t);
    DetachAbsent(s, t);
    DetachSingle(t, t);
    assert s + [] == s;
  }

  /** Whichever of two toasts appended after `s` is dismissed first, the
      other stays after `s`, in creation order. */
  lemma {:induction false} DetachFirstOfTwo(s: seq<NukeToast>, t1: NukeToast, t2: NukeToast)
    requires t1 != t2 && t1 !in s && t2 !in s
    ensures Detach(s + [t1, t2], t1) == s + [t2]
    ensures Detach(s + [t1, t2], t2) == s + [t1]
  {
    DetachPair(s, t1, t2, t1);
    DetachPair(s, t1, t2, t2);
  }

  /** Removing `t` from `s + [t1, t2]` when `s` does not hold it. */
  lemma {:induction false} DetachPair(s: seq<NukeToast>, t1: NukeToast, t2: NukeToast, t: NukeToast)
    requires t !in s
    ensures Detach(s + [t1, t2], t) == s + Detach([t1], t) + Detach([t2], t)
  {
    assert s + [t1, t2] == s + ([t1] + [t2]);
    DetachConcat(s, [t1] + [t2], t);
    DetachConcat([t1], [t2], t);
    DetachAbsent(s, t);
  }

  /** `clearTimeout` keeps the other pending tasks in their order and number:
      it works piece by piece, and a single task goes exactly when it is a
      timeout with that handle. */
  lemma {:induction false} CancelTimerConcat(a: seq<Task>, b: seq<Task>, id: TimerId)
    ensures CancelTimer(a + b, id) == CancelTimer(a, id) + CancelTimer(b, id)
  {
    if a == [] {
      assert a + b == b;
    } else {
      assert (a + b)[1..] == a[1..] + b;
      CancelTimerConcat(a[1..], b, id);
    }
  }

  lemma CancelTimerSingle(task: Task, id: TimerId)
    ensures CancelTimer([task], id) == if task.Timeout? && task.id == id then [] else [task]
  {
    assert [task][1..] == [];
  }

  /** Removing an element that is not there changes nothing. */
  lemma {:induction false} DetachAbsent(toasts: seq<NukeToast>, t: NukeToast)
    requires t !in toasts
    ensures Detach(toasts, t) == toasts
  {
    if toasts != [] {
      DetachAbsent(toasts[1..], t);
    }
  }

  /** Hence a second removal changes nothing. */
  lemma DetachIdempotent(toasts: seq<NukeToast>, t: NukeToast)
    ensures Detach(Detach(toasts, t), t) == Detach(toasts, t)
  {
    DetachAbsent(Detach(toasts, t), t);
  }

  /** A second `dismiss` leaves the class set as the first left it. */
  lemma AfterDismissIdempotent(classes: set<string>)
    ensures AfterDismiss(AfterDismiss(classes)) == AfterDismiss(classes)
  {
  }

  /** An auto-dismiss timer is armed exactly for a positive parse of the
      `duration` attribute; a missing attribute arms none. */
  lemma DurationPositiveIff(attributes: map<string, string>)
    ensures DurationOf(attributes) > 0 <==>
      "duration" in attributes && ParseInt(attributes["duration"]).Some?
      && ParseInt(attributes["duration"]).value > 0
  {
    if "duration" !in attributes {
      assert ParseInt("null") == None by {
        assert TrimStart("null") == "null";
        assert DigitPrefix("null", 10) == [];
      }
    }
  }

  /** Only the `duration` attribute decides the parsed duration. */
  lemma DurationIgnoresOtherAttributes(attributes: map<string, string>, name: string, value: string)
    requires name != "duration"
    ensures DurationOf(attributes[name := value]) == DurationOf(attributes)
  {
    var a := attributes[name := value];
    assert ("duration" in a) == ("duration" in attributes);
    assert "duration" in a ==> a["duration"] == attributes["duration"];
  }

  /** Setting the ARIA attributes does not change the parsed duration. */
  lemma DurationIgnoresAria(attributes: map<string, string>)
    ensures DurationOf(attributes["role" := "status"]["aria-live" := "polite"]) == DurationOf(attributes)
  {
    DurationIgnoresOtherAttributes(attributes, "role", "status");
    DurationIgnoresOtherAttributes(attributes["role" := "status"], "aria-live", "polite");
  }

  /** A `duration` written as the numeral of n (as `String(n)` renders a
      number) yields n, and with a minus sign -n: only positive numerals
      arm a timer. */
  lemma DurationOfNumeral(attributes: map<string, string>, n: nat)
    ensures DurationOf(attributes["duration" := DecimalString(n)]) == n
    ensures DurationOf(attributes["duration" := ['-'] + DecimalString(n)]) == -(n as int)
  {
    ParseIntOfNumeral(n, []);
    assert DecimalString(n) + [] == DecimalString(n);
    ParseIntOfNegativeNumeral(n, []);
  }

  /** The default `duration` of `NukeToast.show` dismisses after 3000 ms. */
  lemma DefaultDurationIs3000(attributes: map<string, string>)
    ensures DurationOf(attributes["duration" := DefaultDuration]) == 3000
  {
    assert DecimalString(3000) == DefaultDuration;
    DurationOfNumeral(attributes, 3000);
  }

  /** The auto-dismiss timer `connectedCallback` queues for a parsed
      duration `d` under handle `id`: none unless `d` is positive. */
  function Armed(d: int, id: TimerId, t: NukeToast): (r: seq<Task>)
    ensures |r| <= 1
    ensures r != [] <==> d > 0
  {
    if d > 0 then [Timeout(id, d, CallDismiss(t))] else []
  }

  /** What running `a` did, between the state before (`old`) and now, given
      the queue `rest` it ran against: the frame callback adds `show`; the
      auto-dismiss timer and the close button's click run `dismiss`; the
      removal timer detaches the toast. Nothing else changes. */
  twostate predicate Ran(w: Window, a: Action, rest: seq<Task>)
    reads w, a.toast
  {
    match a
    case AddShow(t) =>
      && t.classes == old(t.classes) + {"show"}
      && t.attributes == old(t.attributes) && t.children == old(t.children)
      && t.dismissTimer == old(t.dismissTimer)
      && w.queue == rest && w.container == old(w.container)
      && w.containersCreated == old(w.containersCreated) && w.nextTimerId == old(w.nextTimerId)
    case CallDismiss(t) =>
      && t.classes == AfterDismiss(old(t.classes))
      && t.attributes == old(t.attributes) && t.children == old(t.children)
      && t.dismissTimer == old(t.dismissTimer)
      && w.queue == (if old(t.dismissTimer).Some? then CancelTimer(rest, old(t.dismissTimer).value) else rest)
                    + [Timeout(old(w.nextTimerId), SettleDelay, CallRemove(t))]
      && w.container == old(w.container)
      && w.containersCreated == old(w.containersCreated) && w.nextTimerId == old(w.nextTimerId) + 1
    case CallRemove(t) =>
      && unchanged(t)
      && w.queue == rest
      && w.container == (if old(w.container).Some? then Some(Detach(old(w.container).value, t)) else None)
      && w.containersCreated == old(w.containersCreated) && w.nextTimerId == old(w.nextTimerId)
  }

  /** The page: the toast container and the event loop. */
  class Window {
    /** The children of `.nuke-toast-container`, `None` while the page has
        none. */
    var container: Option<seq<NukeToast>>
    /** How many containers `NukeToast.show` has created. */
    ghost var containersCreated: nat
    /** Pending callbacks, in the order they were scheduled. */
    var queue: seq<Task>
    var nextTimerId: TimerId

    ghost predicate Valid()
      reads this
    {
      && containersCreated <= 1
      && (container.None? ==> containersCreated == 0)
      && forall k :: 0 <= k < |queue| && queue[k].Timeout? ==> queue[k].id < nextTimerId
    }

    /** A loaded page, with the children of the container its markup
        contains, if any. */
    constructor (authored: Option<seq<NukeToast>>)
      ensures Valid()
      ensures container == authored && queue == [] && containersCreated == 0
    {
      container := authored;
      containersCreated := 0;
      queue := [];
      nextTimerId := 1;
    }

    /** `setTimeout(action, delay)`: queues the callback under a handle that
        no pending timeout uses. */
    method SetTimeout(delay: int, action: Action) returns (id: TimerId)
      requires Valid()
      modifies this`queue, this`nextTimerId
      ensures Valid()
      ensures queue == old(queue) + [Timeout(id, delay, action)]
      ensures forall k :: 0 <= k < |old(queue)| && old(queue)[k].Timeout? ==> old(queue)[k].id != id
      ensures id == old(nextTimerId) && nextTimerId == old(nextTimerId) + 1
    {
      id := nextTimerId;
      queue := queue + [Timeout(id, delay, action)];
      nextTimerId := nextTimerId + 1;
    }

    /** `clearTimeout(id)`: harmless when the timeout already ran or never
        existed. */
    method ClearTimeout(id: TimerId)
      requires Valid()
      modifies this`queue
      ensures Valid()
      ensures queue == CancelTimer(old(queue), id)
    {
      queue := CancelTimer(queue, id);
    }

    /** `requestAnimationFrame(action)`. */
    method RequestAnimationFrame(action: Action)
      requires Valid()
      modifies this`queue
      ensures Valid()
      ensures queue == old(queue) + [AnimationFrame(action)]
    {
      queue := queue + [AnimationFrame(action)];
    }

    /** `t.remove()`: detaches the toast from the container; a toast that is
        not in it (already removed) leaves the page unchanged. */
    method RemoveElement(t: NukeToast)
      requires Valid()
      modifies this`container
      ensures Valid()
      ensures old(container).None? ==> container == None
      ensures old(container).Some? ==> container == Some(Detach(old(container).value, t))
      ensures old(container).Some? && t !in old(container).value ==> container == old(container)
    {
      if container.Some? {
        container := Some(Detach(container.value, t));
        DetachAbsentWhenMissing(old(container).value, t);
      }
    }

    /** Runs the callback `a` against the current queue. */
    method Run(a: Action)
      requires Valid()
      modifies this, a.toast
      ensures Valid()
      ensures Ran(this, a, old(queue))
    {
      match a
      case AddShow(t) =>
        t.classes := t.classes + {"show"};
      case CallDismiss(t) =>
        t.Dismiss(this);
      case CallRemove(t) =>
        RemoveElement(t);
    }

    /** One turn of the event loop: the pending callback at index `i` leaves
        the queue and runs. */
    method RunTask(i: nat)
      requires Valid() && i < |queue|
      modifies this, queue[i].action.toast
      ensures Valid()
      ensures Ran(this, old(queue[i].action), old(queue[..i] + queue[i + 1..]))
    {
      var task := queue[i];
      queue := queue[..i] + queue[i + 1..];
      Run(task.action);
    }

    /** A click on child `k` of toast `t`: its click handler runs at once,
        and the queue loses nothing. */
    method Click(t: NukeToast, k: nat)
      requires Valid() && k < |t.children| && t.children[k].onClick.Some?
      modifies this, t.children[k].onClick.value.toast
      ensures Valid()
      ensures Ran(this, old(t.children[k].onClick.value), old(queue))
    {
      Run(t.children[k].onClick.value);
    }
  }

  lemma DetachAbsentWhenMissing(toasts: seq<NukeToast>, t: NukeToast)
    ensures t !in toasts ==> Detach(toasts, t) == toasts
  {
    if t !in toasts {
      DetachAbsent(toasts, t);
    }
  }

  /** One `<nuke-toast>` element. */
  class NukeToast {
    var classes: set<string>
    var attributes: map<string, string>
    var children: seq<Child>
    /** `this.dismissTimer`: the handle of the last auto-dismiss timer armed. */
    var dismissTimer: Option<TimerId>

    /** `document.createElement('nuke-toast')`. */
    constructor ()
      ensures classes == {} && attributes == map[] && children == [] && dismissTimer == None
    {
      classes := {};
      attributes := map[];
      children := [];
      dismissTimer := None;
    }

    /** `connectedCallback`: ARIA attributes, the default variant, one close
        button, an auto-dismiss timer only for a positive duration, and the
        `show` class deferred to the next animation frame. */
    method ConnectedCallback(w: Window)
      requires w.Valid()
      modifies this, w`queue, w`nextTimerId
      ensures w.Valid()
      ensures attributes == old(attributes)["role" := "status"]["aria-live" := "polite"]
      ensures classes == WithDefaultVariant(old(classes))
      ensures ("show" in classes) == ("show" in old(classes))
      ensures children == old(children) + [CloseButton(this)]
      ensures var d := DurationOf(old(attributes));
        && dismissTimer == (if d > 0 then Some(old(w.nextTimerId)) else old(dismissTimer))
        && w.queue == old(w.queue) + Armed(d, old(w.nextTimerId), this) + [AnimationFrame(AddShow(this))]
        && w.nextTimerId == old(w.nextTimerId) + |Armed(d, old(w.nextTimerId), this)|
    {
      attributes := attributes["role" := "status"];
      attributes := attributes["aria-live" := "polite"];
      if "zen" !in classes && "soft" !in classes && "solid" !in classes {
        classes := classes + {"zen"};
      }
      assert classes == WithDefaultVariant(old(classes));
      assert ("show" in classes) == ("show" in old(classes));
      AddCloseButton();
      DurationIgnoresAria(old(attributes));
      var duration := DurationOf(attributes);
      ghost var queue0, id0 := w.queue, w.nextTimerId;
      if duration > 0 {
        AutoDismiss(w, duration);
      }
      assert w.queue == queue0 + Armed(duration, id0, this);
      w.RequestAnimationFrame(AddShow(this));
    }

    /** `addCloseButton`: appends the close control, wired to `dismiss`. */
    method AddCloseButton()
      modifies this`children
      ensures children == old(children) + [CloseButton(this)]
      ensures |children| == |old(children)| + 1 && children[..|old(children)|] == old(children)
      ensures children[|children| - 1].classes == {"toast-close"}
      ensures children[|children| - 1].attributes["aria-label"] == CloseLabel
      ensures children[|children| - 1].onClick == Some(CallDismiss(this))
    {
      children := children + [CloseButton(this)];
    }

    /** `autoDismiss(duration)`: arms a timer that calls `dismiss`. */
    method AutoDismiss(w: Window, duration: int)
      requires w.Valid()
      modifies this`dismissTimer, w`queue, w`nextTimerId
      ensures w.Valid()
      ensures dismissTimer == Some(old(w.nextTimerId))
      ensures w.queue == old(w.queue) + [Timeout(old(w.nextTimerId), duration, CallDismiss(this))]
      ensures w.nextTimerId == old(w.nextTimerId) + 1
    {
      var id := w.SetTimeout(duration, CallDismiss(this));
      dismissTimer := Some(id);
    }

    /** `dismiss`: cancels the recorded timer (so a cancelled auto-dismiss
        never fires), swaps `show` for `hide`, and schedules removal after
        the settle delay. There is no guard against a second call. */
    method Dismiss(w: Window)
      requires w.Valid()
      modifies this`classes, w`queue, w`nextTimerId
      ensures w.Valid()
      ensures classes == AfterDismiss(old(classes))
      ensures w.queue == (if dismissTimer.Some? then CancelTimer(old(w.queue), dismissTimer.value) else old(w.queue))
                         + [Timeout(old(w.nextTimerId), SettleDelay, CallRemove(this))]
      ensures w.nextTimerId == old(w.nextTimerId) + 1
      ensures dismissTimer.Some? ==>
        forall k :: 0 <= k < |w.queue| - 1 ==> !(w.queue[k].Timeout? && w.queue[k].id == dismissTimer.value)
    {
      if dismissTimer.Some? {
        w.ClearTimeout(dismissTimer.value);
      }
      classes := classes - {"show"};
      classes := classes + {"hide"};
      var _ := w.SetTimeout(SettleDelay, CallRemove(this));
    }

    /** The element `NukeToast.show` builds before connecting it: the
        message span, the style class, and the `duration` attribute. */
    static method Build(message: string, style: string, duration: Option<string>) returns (t: NukeToast)
      ensures fresh(t)
      ensures t.children == [MessageSpan(message)]
      ensures t.classes == if style == "" then {} else {style}
      ensures t.attributes == map["duration" := duration.GetOr(DefaultDuration)]
      ensures t.dismissTimer == None
    {
      t := new NukeToast();
      t.children := t.children + [MessageSpan(message)];
      if style != "" {
        t.classes := t.classes + {style};
      }
      if duration.Some? {
        t.attributes := t.attributes["duration" := duration.value];
      } else {
        t.attributes := t.attributes["duration" := DefaultDuration];
      }
    }

    /** `NukeToast.show(message, {style, duration})`. An empty `style` stands
        for an absent or falsy one; `duration` is the string the attribute
        receives, `None` when `options.duration` is undefined. Appending to
        the connected container runs `connectedCallback` at once. */
    static method Show(w: Window, message: string, style: string, duration: Option<string>) returns (t: NukeToast)
      requires w.Valid()
      modifies w
      ensures w.Valid() && fresh(t)
      ensures t.children == [MessageSpan(message), CloseButton(t)]
      ensures t.classes == WithDefaultVariant(if style == "" then {} else {style})
      ensures "show" in t.classes <==> style == "show"
      ensures t.attributes == map["duration" := duration.GetOr(DefaultDuration), "role" := "status", "aria-live" := "polite"]
      ensures w.container == Some(old(w.container).GetOr([]) + [t])
      ensures w.containersCreated == old(w.containersCreated) + (if old(w.container).None? then 1 else 0)
      ensures var d := DurationOf(t.attributes);
        && t.dismissTimer == (if d > 0 then Some(old(w.nextTimerId)) else None)
        && w.queue == old(w.queue) + Armed(d, old(w.nextTimerId), t) + [AnimationFrame(AddShow(t))]
        && w.nextTimerId == old(w.nextTimerId) + |Armed(d, old(w.nextTimerId), t)|
    {
      t := Build(message, style, duration);
      ghost var built := t.attributes;
      DurationIgnoresAria(built);
      if w.container.None? {
        w.container := Some([]);
        w.containersCreated := w.containersCreated + 1;
      }
      w.container := Some(w.container.value + [t]);
      t.ConnectedCallback(w);
    }
  }

  /** The `show` class arrives with the animation-frame callback: a toast
      shown without the `show` style lacks it until that callback runs. */
  method ShowThenPaint(w: Window, message: string, style: string, duration: Option<string>) returns (t: NukeToast)
    requires w.Valid()
    modifies w
    ensures w.Valid() && fresh(t)
    ensures "show" in t.classes
    ensures w.container == Some(old(w.container).GetOr([]) + [t])
  {
    t := NukeToast.Show(w, message, style, duration);
    assert style != "show" ==> "show" !in t.classes;
    w.RunTask(|w.queue| - 1);
  }

  /** Dismissing twice leaves the class set one dismissal leaves, and once
      the last removal callback runs the toast is out of the container. */
  method DismissTwice(w: Window, t: NukeToast)
    requires w.Valid()
    modifies w, t
    ensures w.Valid()
    ensures t.classes == AfterDismiss(old(t.classes))
    ensures old(w.container).Some? ==> w.container.Some? && t !in w.container.value
  {
    t.Dismiss(w);
    t.Dismiss(w);
    AfterDismissIdempotent(old(t.classes));
    w.RunTask(|w.queue| - 1);
  }

  /** Clicking the close button that connecting appended dismisses the
      toast: `show` gives way to `hide`, the auto-dismiss timer (if one was
      armed) can no longer fire, and the removal is queued. */
  method ConnectThenClose(w: Window, t: NukeToast)
    requires w.Valid()
    modifies w, t
    ensures w.Valid()
    ensures t.classes == AfterDismiss(WithDefaultVariant(old(t.classes)))
    ensures w.queue != [] && w.queue[|w.queue| - 1].Timeout?
    ensures w.queue[|w.queue| - 1].delay == SettleDelay && w.queue[|w.queue| - 1].action == CallRemove(t)
    ensures t.dismissTimer.Some? ==>
      forall k :: 0 <= k < |w.queue| - 1 ==> !(w.queue[k].Timeout? && w.queue[k].id == t.dismissTimer.value)
    ensures w.container == old(w.container)
  {
    t.ConnectedCallback(w);
    var k := |t.children| - 1;
    assert t.children[k] == CloseButton(t);
    w.Click(t, k);
  }

  /** A toast shown, dismissed and removed leaves the container as it found
      it (created if it was missing), and creates at most that container. */
  method ShowDismissRemove(w: Window, message: string) returns (t: NukeToast)
    requires w.Valid()
    modifies w
    ensures w.Valid()
    ensures w.containersCreated == old(w.containersCreated) + (if old(w.container).None? then 1 else 0)
    ensures w.container == Some(old(w.container).GetOr([]))
  {
    ghost var before := w.container.GetOr([]);
    t := NukeToast.Show(w, message, "", None);
    assert t !in before;
    DismissThenRemove(w, t);
    DetachLast(before, t);
  }

  /** `dismiss` followed by the turn that runs its removal callback: the
      toast leaves the container and no container is created. */
  method DismissThenRemove(w: Window, t: NukeToast)
    requires w.Valid()
    modifies w, t
    ensures w.Valid()
    ensures w.containersCreated == old(w.containersCreated)
    ensures w.container == if old(w.container).Some? then Some(Detach(old(w.container).value, t)) else None
  {
    t.Dismiss(w);
    w.RunTask(|w.queue| - 1);
  }

  /** So the next `show` creates no container: only the first call on a
      page without one does. */
  method ShowDismissShow(w: Window, first: string, second: string) returns (t1: NukeToast, t2: NukeToast)
    requires w.Valid()
    modifies w
    ensures w.Valid()
    ensures w.containersCreated == old(w.containersCreated) + (if old(w.container).None? then 1 else 0)
    ensures w.container == Some(old(w.container).GetOr([]) + [t2])
  {
    t1 := ShowDismissRemove(w, first);
    t2 := NukeToast.Show(w, second, "", None);
  }

  /** Toasts enter the container in call order, and only the first call
      creates it. */
  method TwoToasts(w: Window, first: string, second: string) returns (t1: NukeToast, t2: NukeToast)
    requires w.Valid()
    modifies w
    ensures w.Valid()
    ensures w.container == Some(old(w.container).GetOr([]) + [t1, t2])
    ensures w.containersCreated == old(w.containersCreated) + (if old(w.container).None? then 1 else 0)
  {
    t1 := NukeToast.Show(w, first, "", None);
    t2 := NukeToast.Show(w, second, "", None);
    assert old(w.container).GetOr([]) + [t1] + [t2] == old(w.container).GetOr([]) + [t1, t2];
  }
}
