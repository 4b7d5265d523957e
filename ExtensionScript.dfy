/**
 The browser-extension variant of the alt-text gate (extension/script.js).
 An image attachment is missing alt text when its group shows no "ALT"
 badge. While that is so, the real Tweet button is hidden and a decorated
 clone labelled "Add Alt Text" stands in front of it, and a capturing
 keydown listener swallows the Cmd+Enter shortcut in the tweet text areas.
 */
module ExtensionScript {
  import opened Dom
  import opened Transition

  const DISABLED_CLASS_NAME := "disable-tweet-for-missing-alt-text"
  const DISABLED_BUTTON_TEXT := "Add Alt Text"

  /**
   `findTextNode`: walk `firstChild` links from `node` itself until a text
   node or the end of the chain.
   */
  method FindTextNode(node: Node) returns (child: Option<Node>)
    ensures child == FirstText(node)
    ensures child.Some? ==> child.value.Text?
  {
    child := Some(node);
    while child.Some? && !child.value.Text?
      invariant child.Some? ==> FirstText(child.value) == FirstText(node)
      invariant child.None? ==> FirstText(node).None?
      decreases if child.Some? then |Chain(child.value)| else 0
    {
      child := FirstChild(child.value);
    }
  }

  /** A group blocks the Tweet when it holds an image and its text carries no "ALT" badge. */
  function MissingAltText(g: Group): (missing: bool)
    ensures missing <==> g.hasImg && !(Includes(g.textContent, "ALT") || Includes(g.textContent, "GIFALT"))
  {
    GifAltContainsAlt(g.textContent);
    g.hasImg && !Includes(g.textContent, "ALT")
  }

  /** Some attachment group of the snapshot blocks the Tweet. */
  predicate AnyMissing(groups: seq<Group>)
  {
    exists i | 0 <= i < |groups| :: MissingAltText(groups[i])
  }

  /** The "GIFALT" badge always contains "ALT", so the second marker test never changes the verdict. */
  lemma GifAltContainsAlt(s: string)
    ensures Includes(s, "GIFALT") ==> Includes(s, "ALT")
  {
    if Includes(s, "GIFALT") {
      var i :| 0 <= i <= |s| && LiteralAt(s, i, "GIFALT");
      assert s[i + 3..i + 6] == s[i..i + 6][3..6];
      assert LiteralAt(s, i + 3, "ALT");
    }
  }

  /**
   The scan in the `try` block of `callback`: stop with "missing" at the
   first group that holds an image but neither marker text.
   */
  method Classify(groups: seq<Group>) returns (hasMissingLabels: bool)
    ensures hasMissingLabels <==> AnyMissing(groups)
  {
    hasMissingLabels := false;
    if |groups| == 0 {
      return;
    }
    for i := 0 to |groups|
      invariant forall k :: 0 <= k < i ==> !MissingAltText(groups[k])
    {
      var group := groups[i];
      if group.hasImg {
        GifAltContainsAlt(group.textContent);
        if !(Includes(group.textContent, "ALT") || Includes(group.textContent, "GIFALT")) {
          hasMissingLabels := true;
          return;
        }
      }
    }
  }

  /** A keydown event: its `key` and whether the meta key is held. */
  datatype KeyEvent = KeyEvent(key: string, metaKey: bool)

  /**
   `onKeyDown`: the event is stopped when it is Cmd+Enter and the focused
   element is one of the tweet text areas.
   */
  function OnKeyDown(event: KeyEvent, activeElement: DomElement?, tweetTextAreas: seq<DomElement>): (stop: bool)
    ensures stop <==> event.key == "Enter" && event.metaKey && activeElement != null && activeElement in tweetTextAreas
  {
    event.key == "Enter" && event.metaKey &&
    activeElement != null && IndexOf(tweetTextAreas, activeElement) != -1
  }

  /** `o` as a frame, empty when it is null. */
  function Present(o: object?): set<object>
  {
    if o != null then {o} else {}
  }

  /** The parent of `e` as a frame, empty when `e` or its parent is null. */
  function ParentFrame(e: DomElement?): set<object>
    reads e
  {
    if e != null && e.parent != null then {e.parent} else {}
  }

  /**
   The deep clone `reportMissingLabels` shows in place of the real button:
   the disabling class is added and the label becomes "Add Alt Text",
   through the text node on its `firstChild` chain or, when there is none,
   by setting the clone's whole `textContent`.
   */
  method DecoratedClone(button: DomElement) returns (clone: DomElement)
    ensures fresh(clone) && clone.parent == null
    ensures clone.classes == AddClass(button.classes, DISABLED_CLASS_NAME)
    ensures clone.children ==
      (if Label(button.children).Some?
       then SetLabel(button.children, DISABLED_BUTTON_TEXT)
       else SetTextContent(DISABLED_BUTTON_TEXT))
    ensures clone.display == button.display
    ensures DISABLED_CLASS_NAME in clone.classes
    ensures Label(clone.children) == Some(DISABLED_BUTTON_TEXT)
  {
    clone := new DomElement.CloneOf(button);
    clone.classes := AddClass(clone.classes, DISABLED_CLASS_NAME);
    var textNode := FindTextNode(Element(clone.children));
    if textNode.None? {
      clone.children := SetTextContent(DISABLED_BUTTON_TEXT);
    } else {
      SetLabelWrites(clone.children, DISABLED_BUTTON_TEXT);
      clone.children := SetLabel(clone.children, DISABLED_BUTTON_TEXT);
    }
  }

  /** The module-level state of the script and the window's keydown listener. */
  class Gate {
    var isReportingMissingLabels: bool
    var tweetButton: DomElement?
    var tweetButtonClone: DomElement?
    /** Whether `onKeyDown` is registered on the window (capture phase). */
    var keyListenerRegistered: bool
    /** The parent the clone was inserted into, and its children before the insertion. */
    ghost var host: Container?
    ghost var hostChildren: seq<DomElement>

    /**
     The listener is registered exactly while a report is active; during a
     report the real button is hidden and a decorated clone labelled
     "Add Alt Text" sits immediately before it.
     */
    ghost predicate Valid()
      reads this, tweetButton, tweetButtonClone, host
    {
      && keyListenerRegistered == isReportingMissingLabels
      && (isReportingMissingLabels <==> tweetButton != null)
      && (isReportingMissingLabels <==> tweetButtonClone != null)
      && (!isReportingMissingLabels ==> host == null)
      && (isReportingMissingLabels ==>
            && tweetButton != tweetButtonClone
            && tweetButton.display == "none"
            && DISABLED_CLASS_NAME in tweetButtonClone.classes
            && Label(tweetButtonClone.children) == Some(DISABLED_BUTTON_TEXT)
            && tweetButton.parent == host
            && tweetButtonClone.parent == host
            && (host != null ==>
                  && tweetButton in hostChildren
                  && tweetButtonClone !in hostChildren
                  && host.children == InsertBefore(hostChildren, tweetButtonClone, tweetButton)))
    }

    constructor ()
      ensures Valid()
      ensures !isReportingMissingLabels && !keyListenerRegistered
      ensures tweetButton == null && tweetButtonClone == null
    {
      isReportingMissingLabels := false;
      tweetButton := null;
      tweetButtonClone := null;
      keyListenerRegistered := false;
      host := null;
      hostChildren := [];
    }

    /**
     `reportMissingLabels`, given the element the Tweet-button query found
     (null when there is none).
     */
    method ReportMissingLabels(found: DomElement?)
      requires Valid() && !isReportingMissingLabels
      requires found != null && found.parent != null ==> found in found.parent.children
      modifies this, found, ParentFrame(found)
      ensures Valid()
      ensures found == null ==> unchanged(this)
      ensures found != null ==>
        && isReportingMissingLabels && keyListenerRegistered
        && tweetButton == found
        && tweetButtonClone != null && fresh(tweetButtonClone)
        && tweetButtonClone.classes == AddClass(old(found.classes), DISABLED_CLASS_NAME)
        && tweetButtonClone.children ==
             (if Label(old(found.children)).Some?
              then SetLabel(old(found.children), DISABLED_BUTTON_TEXT)
              else SetTextContent(DISABLED_BUTTON_TEXT))
        && tweetButtonClone.display == old(found.display)
        && found.display == "none"
        && found.children == old(found.children) && found.classes == old(found.classes)
        && found.parent == old(found.parent)
        && tweetButtonClone.parent == found.parent
        && (found.parent != null ==>
              found.parent.children == InsertBefore(old(found.parent.children), tweetButtonClone, found))
        && host == found.parent
        && (found.parent != null ==> hostChildren == old(found.parent.children))
    {
      tweetButton := found;
      if tweetButton == null {
        return;
      }
      var clone := DecoratedClone(tweetButton);
      tweetButtonClone := clone;
      tweetButton.display := "none";
      var p := tweetButton.parent;
      host := p;
      if p != null {
        hostChildren := p.children;
        p.children := InsertBefore(p.children, clone, tweetButton);
        clone.parent := p;
      }
      keyListenerRegistered := true;
      isReportingMissingLabels := true;
    }

    /**
     `dismissMissingLabels`: un-hide the real button, take the clone out of
     the page, deregister the listener, forget both elements.
     */
    method DismissMissingLabels()
      requires Valid()
      modifies this, tweetButton, tweetButtonClone, host
      ensures Valid()
      ensures !isReportingMissingLabels && !keyListenerRegistered
      ensures tweetButton == null && tweetButtonClone == null && host == null
      ensures old(isReportingMissingLabels) ==>
        && old(tweetButton).display == ""
        && old(tweetButton).children == old(tweetButton.children)
        && old(tweetButton).classes == old(tweetButton.classes)
        && old(tweetButton).parent == old(tweetButton.parent)
        && old(tweetButtonClone).parent == null
        && (old(host) != null ==> old(host).children == old(hostChildren))
      ensures !old(isReportingMissingLabels) ==> unchanged(this)
    {
      if tweetButtonClone != null && tweetButton != null {
        tweetButton.display := "";
        var p := tweetButton.parent;
        if p != null {
          InsertThenRemove(hostChildren, tweetButtonClone, tweetButton);
          p.children := RemoveChild(p.children, tweetButtonClone);
          tweetButtonClone.parent := null;
        }
        host := null;
        hostChildren := [];
      }
      keyListenerRegistered := false;
      tweetButton := null;
      tweetButtonClone := null;
      isReportingMissingLabels := false;
    }

    /**
     `callback`, run on one snapshot: the attachment groups the query found
     and the element the Tweet-button query would find. The `finally` block
     runs even after the early return for an empty snapshot.
     */
    method Callback(groups: seq<Group>, found: DomElement?)
      requires Valid()
      requires found != null && found.parent != null ==> found in found.parent.children
      modifies this, tweetButton, tweetButtonClone, host
      modifies if Decide(AnyMissing(groups), isReportingMissingLabels) == Report then Present(found) + ParentFrame(found) else {}
      ensures Valid()
      ensures isReportingMissingLabels == NextReporting(AnyMissing(groups), old(isReportingMissingLabels), found != null)
      ensures |groups| == 0 ==> !isReportingMissingLabels && !keyListenerRegistered && tweetButton == null
      ensures var action := Decide(AnyMissing(groups), old(isReportingMissingLabels));
        action == Stay || (action == Report && found == null) ==>
          && unchanged(this)
          && unchanged(Present(found) + old(ParentFrame(found)))
          && unchanged(Present(tweetButton) + Present(tweetButtonClone) + Present(host))
      ensures var again := Decide(AnyMissing(groups), isReportingMissingLabels);
        again == Stay || (again == Report && found == null)
      ensures Decide(AnyMissing(groups), old(isReportingMissingLabels)) == Report && found != null ==>
        && tweetButton == found
        && tweetButtonClone != null && fresh(tweetButtonClone)
        && tweetButtonClone.classes == AddClass(old(found.classes), DISABLED_CLASS_NAME)
        && tweetButtonClone.children ==
             (if Label(old(found.children)).Some?
              then SetLabel(old(found.children), DISABLED_BUTTON_TEXT)
              else SetTextContent(DISABLED_BUTTON_TEXT))
        && tweetButtonClone.display == old(found.display)
        && found.display == "none"
        && found.children == old(found.children) && found.classes == old(found.classes)
        && found.parent == old(found.parent)
        && tweetButtonClone.parent == found.parent
        && (found.parent != null ==>
              found.parent.children == InsertBefore(old(found.parent.children), tweetButtonClone, found))
        && host == found.parent
        && (found.parent != null ==> hostChildren == old(found.parent.children))
      ensures Decide(AnyMissing(groups), old(isReportingMissingLabels)) == Dismiss ==>
        && old(tweetButton).display == ""
        && old(tweetButton).children == old(tweetButton.children)
        && old(tweetButton).classes == old(tweetButton.classes)
        && old(tweetButton).parent == old(tweetButton.parent)
        && old(tweetButtonClone).parent == null
        && (old(host) != null ==> old(host).children == old(hostChildren))
    {
      var hasMissingLabels := Classify(groups);
      if hasMissingLabels && !isReportingMissingLabels {
        ReportMissingLabels(found);
      } else if !hasMissingLabels && isReportingMissingLabels {
        DismissMissingLabels();
      }
    }

    /**
     A keydown event reaching the window: it is stopped only while the
     listener is registered, hence only while a report is active.
     */
    method DispatchKeyDown(event: KeyEvent, activeElement: DomElement?, tweetTextAreas: seq<DomElement>)
      returns (stopped: bool)
      requires Valid()
      ensures stopped <==>
        isReportingMissingLabels && event.key == "Enter" && event.metaKey &&
        activeElement != null && activeElement in tweetTextAreas
    {
      stopped := keyListenerRegistered && OnKeyDown(event, activeElement, tweetTextAreas);
    }
  }

  /**
   A batch with an image lacking alt text, then a batch without one: the
   real Tweet button is shown again with its label and classes as before,
   its parent's child list is as before the clone went in, and the gate is
   idle with no listener.
   */
  method EnterThenExit(gate: Gate, missing: seq<Group>, complete: seq<Group>, button: DomElement)
    requires gate.Valid() && !gate.isReportingMissingLabels
    requires AnyMissing(missing) && !AnyMissing(complete)
    requires button.parent != null && button in button.parent.children
    modifies gate, button, button.parent
    ensures gate.Valid() && !gate.isReportingMissingLabels && !gate.keyListenerRegistered
    ensures button.display == ""
    ensures button.children == old(button.children) && button.classes == old(button.classes)
    ensures button.parent == old(button.parent)
    ensures button.parent.children == old(button.parent.children)
  {
    gate.Callback(missing, button);
    gate.Callback(complete, null);
  }
}
