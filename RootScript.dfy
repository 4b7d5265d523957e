/**
 The page-script variant of the alt-text gate (script.js at the repository
 root). An attachments section is missing alt text when its first
 unlabelled "Media" group holds an image that is not hosted on Giphy.
 While that is so, the Tweet button itself is relabelled "Add Alt Text"
 and carries the disabling class; the original label is captured on the
 first write only and written back when the block is lifted.
 */
module RootScript {
  import opened Dom
  import opened Transition

  const DISABLED_CLASS_NAME := "disable-tweet-for-missing-alt-text"
  const DISABLED_BUTTON_TEXT := "Add Alt Text"
  /** The label written back when no usable original label was captured. */
  const DEFAULT_BUTTON_TEXT := "Tweet"

  /**
   `findTextNode`: start at the first child and follow `firstChild` links
   until a text node. The source tests `nodeType` before null, so it is only
   defined when the chain below `node` reaches a text node.
   */
  method FindTextNode(node: Node) returns (child: Node)
    requires node.Element? && |node.children| > 0 && FirstText(node.children[0]).Some?
    ensures child.Text?
    ensures FirstText(node) == Some(child)
  {
    child := node.children[0];
    while !child.Text?
      invariant FirstText(child) == FirstText(node)
      decreases child
    {
      child := child.children[0];
    }
  }

  // The Giphy URL test. The pattern is
  //   <lead>(s?)://media([0-9]+).giphy.com/media/
  // searched anywhere in the `src`, where the two unescaped dots match any
  // character but a line terminator. As written the lead is "/http".

  predicate IsDigit(c: char)
  {
    '0' <= c <= '9'
  }

  /** What an unescaped `.` matches in a regular expression without the `s` flag. */
  predicate MatchesDot(c: char)
  {
    c != '\n' && c != '\r' && c != '\U{2028}' && c != '\U{2029}'
  }

  /** The tail `.giphy.com/media/` of the pattern, starting at position `m`. */
  predicate HostAt(s: string, m: int)
  {
    0 <= m && m + 17 <= |s| &&
    MatchesDot(s[m]) && LiteralAt(s, m + 1, "giphy") &&
    MatchesDot(s[m + 6]) && LiteralAt(s, m + 7, "com/media/")
  }

  /** `([0-9]+)` from position `k`, followed by the tail; any split of the digits may be taken. */
  predicate DigitsThenHostAt(s: string, k: int)
  {
    0 <= k && exists e | k < e <= |s| :: (forall j | k <= j < e :: IsDigit(s[j])) && HostAt(s, e)
  }

  /** The whole pattern, beginning with `lead`, matched at position `i`. */
  predicate PatternAt(s: string, i: int, lead: string)
  {
    LiteralAt(s, i, lead) &&
    ((LiteralAt(s, i + |lead|, "://media") && DigitsThenHostAt(s, i + |lead| + 8)) ||
     (LiteralAt(s, i + |lead|, "s://media") && DigitsThenHostAt(s, i + |lead| + 9)))
  }

  /** `RegExp.test`: the pattern matches somewhere in `src`. */
  function GiphyTest(src: string, lead: string): (r: bool)
    ensures r ==> |lead| + 26 <= |src|
  {
    exists i | 0 <= i <= |src| :: PatternAt(src, i, lead)
  }

  /** `GIPHY_URL.test(src)` as written: the pattern text starts with a stray "/". */
  function IsGiphyAsWritten(src: string): (r: bool)
    ensures r ==> IsGiphyUrl(src)
    ensures r ==> exists i :: LiteralAt(src, i, "/http")
  {
    AsWrittenNeedsSlash(src);
    GiphyTest(src, "/http")
  }

  /** The Giphy test the gate uses: the same pattern without the stray "/". */
  function IsGiphyUrl(src: string): (r: bool)
    ensures r ==> 30 <= |src|
  {
    GiphyTest(src, "http")
  }

  /** As written the pattern can only match where a "/" stands right before "http", and then the corrected one matches too. */
  lemma AsWrittenNeedsSlash(src: string)
    ensures GiphyTest(src, "/http") ==> GiphyTest(src, "http") && exists i :: LiteralAt(src, i, "/http")
  {
    if GiphyTest(src, "/http") {
      var i :| 0 <= i <= |src| && PatternAt(src, i, "/http");
      assert src[i + 1..i + 5] == src[i..i + 5][1..];
      assert PatternAt(src, i + 1, "http");
    }
  }

  /** A literal placed between two strings is found at the end of the first. */
  lemma LiteralBetween(a: string, lit: string, c: string)
    ensures LiteralAt(a + lit + c, |a|, lit)
  {
    assert (a + lit + c)[|a|..|a| + |lit|] == lit;
  }

  /** A part of a literal found in `s` is found in `s` too. */
  lemma LiteralWithin(s: string, i: int, lit: string, j: int, part: string)
    requires LiteralAt(s, i, lit) && LiteralAt(lit, j, part)
    ensures LiteralAt(s, i + j, part)
  {
    forall t | 0 <= t < |part| ensures s[i + j + t] == part[t] {
      assert s[i + j + t] == s[i..i + |lit|][j + t];
      assert part[t] == lit[j..j + |part|][t];
    }
    assert s[i + j..i + j + |part|] == part;
  }

  /** The literal text ".giphy.com/media/" matches the tail of the pattern. */
  lemma HostFromLiteral(s: string, m: int)
    requires LiteralAt(s, m, ".giphy.com/media/")
    ensures HostAt(s, m)
  {
    var host := ".giphy.com/media/";
    assert LiteralAt(host, 1, "giphy");
    assert LiteralAt(host, 7, "com/media/");
    LiteralWithin(s, m, host, 1, "giphy");
    LiteralWithin(s, m, host, 7, "com/media/");
    assert s[m] == s[m..m + 17][0] && s[m + 6] == s[m..m + 17][6];
  }

  /** A match at `i` needs room for the lead, "://media", a digit and the 17-character tail. */
  lemma PatternLength(s: string, i: int, lead: string)
    requires PatternAt(s, i, lead)
    ensures 0 <= i && i + |lead| + 26 <= |s|
  {
  }

  /** A Giphy media URL, "http" or "https", any non-empty digit run, any path. */
  function GiphyMediaUrl(secure: bool, digits: string, path: string): string
  {
    "http" + GiphyScheme(secure) + digits + (".giphy.com/media/" + path)
  }

  /** A non-empty run of digits followed by ".giphy.com/media/" matches `([0-9]+).giphy.com/media/`. */
  lemma DigitsThenHostFrom(a: string, digits: string, path: string)
    requires |digits| > 0 && forall j | 0 <= j < |digits| :: IsDigit(digits[j])
    ensures DigitsThenHostAt(a + digits + (".giphy.com/media/" + path), |a|)
  {
    var s := a + digits + (".giphy.com/media/" + path);
    var k, e := |a|, |a| + |digits|;
    LiteralBetween(a + digits, ".giphy.com/media/", path);
    assert a + digits + (".giphy.com/media/" + path) == a + digits + ".giphy.com/media/" + path;
    HostFromLiteral(s, e);
    forall j | k <= j < e ensures IsDigit(s[j]) {
      assert s[j] == digits[j - k];
    }
  }

  /** The "http" or "https" scheme of a Giphy media URL, up to the digits. */
  function GiphyScheme(secure: bool): string
  {
    if secure then "s://media" else "://media"
  }

  /** A Giphy media URL starts with "http" followed by its scheme. */
  lemma GiphyMediaHead(secure: bool, digits: string, path: string)
    ensures LiteralAt(GiphyMediaUrl(secure, digits, path), 0, "http")
    ensures LiteralAt(GiphyMediaUrl(secure, digits, path), 4, GiphyScheme(secure))
  {
    var s := GiphyMediaUrl(secure, digits, path);
    var rest := GiphyScheme(secure);
    var tail := digits + (".giphy.com/media/" + path);
    assert s == "http" + rest + tail;
    LiteralBetween([], "http", rest + tail);
    assert [] + "http" + (rest + tail) == s;
    LiteralBetween("http", rest, tail);
  }

  /** After the scheme of a Giphy media URL come the digits and the host tail. */
  lemma GiphyMediaTail(secure: bool, digits: string, path: string)
    requires |digits| > 0 && forall j | 0 <= j < |digits| :: IsDigit(digits[j])
    ensures DigitsThenHostAt(GiphyMediaUrl(secure, digits, path), 4 + |GiphyScheme(secure)|)
  {
    DigitsThenHostFrom("http" + GiphyScheme(secure), digits, path);
  }

  /** The pattern with lead "http" matches at the start of every Giphy media URL. */
  lemma GiphyMediaPatternAtStart(secure: bool, digits: string, path: string)
    requires |digits| > 0 && forall j | 0 <= j < |digits| :: IsDigit(digits[j])
    ensures PatternAt(GiphyMediaUrl(secure, digits, path), 0, "http")
  {
    GiphyMediaHead(secure, digits, path);
    GiphyMediaTail(secure, digits, path);
  }

  /** Every Giphy media URL passes the corrected test. */
  lemma GiphyUrlMatchesGiphyMedia(secure: bool, digits: string, path: string)
    requires |digits| > 0 && forall j | 0 <= j < |digits| :: IsDigit(digits[j])
    ensures IsGiphyUrl(GiphyMediaUrl(secure, digits, path))
  {
    GiphyMediaPatternAtStart(secure, digits, path);
  }

  /** A Giphy image of the kind the GIF picker attaches: "https://media0.giphy.com/media/cat.gif". */
  const GIPHY_SAMPLE := GiphyMediaUrl(true, "0", "cat.gif")

  /** In the first eight characters "https://" of the sample no "/" is followed by "h". */
  lemma SampleHeadHasNoSlashH(i: int)
    requires 0 <= i <= 7
    ensures !(GIPHY_SAMPLE[i] == '/' && GIPHY_SAMPLE[i + 1] == 'h')
  {
    var scheme := "http" + "s://media";
    assert GIPHY_SAMPLE == scheme + ("0" + (".giphy.com/media/" + "cat.gif"));
    assert GIPHY_SAMPLE[i] == scheme[i] && GIPHY_SAMPLE[i + 1] == scheme[i + 1];
  }

  /** No position of the sample starts the as-written pattern. */
  lemma SampleHasNoAsWrittenMatch()
    ensures !GiphyTest(GIPHY_SAMPLE, "/http")
  {
    var s := GIPHY_SAMPLE;
    assert |s| == 38;
    forall i | 0 <= i <= |s| ensures !PatternAt(s, i, "/http") {
      if PatternAt(s, i, "/http") {
        PatternLength(s, i, "/http");
        assert s[i] == s[i..i + 5][0] && s[i + 1] == s[i..i + 5][1];
        SampleHeadHasNoSlashH(i);
      }
    }
  }

  /**
   As written the test misses that image: a match would have to start in
   its first eight characters, with a "/" followed by "http".
   */
  lemma AsWrittenMissesGiphyMedia()
    ensures IsGiphyUrl(GIPHY_SAMPLE)
    ensures !IsGiphyAsWritten(GIPHY_SAMPLE)
  {
    GiphyUrlMatchesGiphyMedia(true, "0", "cat.gif");
    SampleHasNoAsWrittenMatch();
  }

  /** An attachments section, reduced to the first unlabelled "Media" group inside it, if any. */
  datatype Section = Section(unlabelledGroup: Option<Group>)

  /** A section blocks the Tweet when its unlabelled group holds an image that is not from Giphy. */
  function SectionMissing(section: Section): (missing: bool)
    ensures missing ==> section.unlabelledGroup.Some? && section.unlabelledGroup.value.hasImg
    ensures missing ==> !IsGiphyAsWritten(section.unlabelledGroup.value.imgSrc)
  {
    section.unlabelledGroup.Some? &&
    section.unlabelledGroup.value.hasImg &&
    !IsGiphyUrl(section.unlabelledGroup.value.imgSrc)
  }

  /** Some section of the snapshot blocks the Tweet. */
  predicate AnyMissing(sections: seq<Section>)
  {
    exists i | 0 <= i < |sections| :: SectionMissing(sections[i])
  }

  /** The image the corrected test exempts and the as-written one lets through. */
  lemma GiphySectionIsExempt()
    ensures var section := Section(Some(Group(true, "", GIPHY_SAMPLE)));
      && !SectionMissing(section)
      && section.unlabelledGroup.value.hasImg && !IsGiphyAsWritten(GIPHY_SAMPLE)
  {
    AsWrittenMissesGiphyMedia();
  }

  /**
   The scan in the `try` block of `callback`: every section is visited (the
   `return`s inside the `forEach` callback only skip to the next section),
   and any section with an unlabelled, non-Giphy image sets the flag.
   */
  method Classify(sections: seq<Section>) returns (hasMissingLabels: bool)
    ensures hasMissingLabels <==> AnyMissing(sections)
  {
    hasMissingLabels := false;
    if |sections| == 0 {
      return;
    }
    for i := 0 to |sections|
      invariant hasMissingLabels <==> exists k | 0 <= k < i :: SectionMissing(sections[k])
    {
      var unlabelledGroup := sections[i].unlabelledGroup;
      if unlabelledGroup.None? {
        continue;
      }
      if !unlabelledGroup.value.hasImg {
        continue;
      }
      if IsGiphyUrl(unlabelledGroup.value.imgSrc) {
        continue;
      }
      hasMissingLabels := true;
    }
  }

  /** `initialTweetButtonText || "Tweet"`: the empty string and null both fall back to the default label. */
  function ExitText(initialText: Option<string>): (t: string)
    ensures t != ""
    ensures initialText.Some? && initialText.value != "" ==> t == initialText.value
    ensures initialText.None? || initialText.value == "" ==> t == DEFAULT_BUTTON_TEXT
  {
    if initialText.Some? && initialText.value != "" then initialText.value else DEFAULT_BUTTON_TEXT
  }

  /**
   Entering and then leaving the block restores a button exactly when the
   captured label is the button's own non-empty label and the disabling
   class was not already there.
   */
  lemma EnterExitRestoresButton(children: seq<Node>, classes: seq<string>, initialText: Option<string>)
    requires Label(children).Some? && Label(children).value != ""
    requires initialText.None? || initialText == Label(children)
    requires DISABLED_CLASS_NAME !in classes
    ensures var captured := if initialText.None? then Label(children) else initialText;
      && SetLabel(SetLabel(children, DISABLED_BUTTON_TEXT), ExitText(captured)) == children
      && RemoveClass(AddClass(classes, DISABLED_CLASS_NAME), DISABLED_CLASS_NAME) == classes
  {
    SetLabelRestores(children, DISABLED_BUTTON_TEXT);
    RemoveAddedClass(classes, DISABLED_CLASS_NAME);
  }

  /**
   The label is captured once for the whole page: a later block on a button
   with another label ends with the first captured label (or "Tweet" when
   that was empty), not with the button's own.
   */
  lemma ExitWritesFirstCapture(children: seq<Node>, initialText: Option<string>)
    requires Label(children).Some?
    requires initialText.Some? && initialText != Label(children)
    ensures Label(SetLabel(SetLabel(children, DISABLED_BUTTON_TEXT), ExitText(initialText))) == Some(ExitText(initialText))
    ensures initialText.value != "" ==> Label(SetLabel(SetLabel(children, DISABLED_BUTTON_TEXT), ExitText(initialText))) != Label(children)
  {
    SetLabelWrites(children, DISABLED_BUTTON_TEXT);
    SetLabelWrites(SetLabel(children, DISABLED_BUTTON_TEXT), ExitText(initialText));
  }

  /** The module-level state of the script. */
  class Gate {
    var initialTweetButtonText: Option<string>
    var isReportingMissingLabels: bool

    /** A block is only ever entered after the original label has been captured. */
    ghost predicate Valid()
      reads this
    {
      isReportingMissingLabels ==> initialTweetButtonText.Some?
    }

    constructor ()
      ensures Valid()
      ensures initialTweetButtonText.None? && !isReportingMissingLabels
    {
      initialTweetButtonText := None;
      isReportingMissingLabels := false;
    }

    /**
     `writeTextToButtonNode`: capture the label while nothing has been
     captured yet, then set the button's text node to `text`.
     */
    method WriteTextToButtonNode(node: DomElement, text: string)
      requires Label(node.children).Some?
      modifies this`initialTweetButtonText, node`children
      ensures initialTweetButtonText ==
        if old(initialTweetButtonText).None? then old(Label(node.children)) else old(initialTweetButtonText)
      ensures node.children == SetLabel(old(node.children), text)
      ensures Label(node.children) == Some(text)
    {
      var textNode := FindTextNode(Element(node.children));
      if initialTweetButtonText.None? {
        initialTweetButtonText := Some(textNode.data);
      }
      SetLabelWrites(node.children, text);
      node.children := SetLabel(node.children, text);
    }

    /**
     `callback`, run on one snapshot: the attachment sections the query
     found and the element the Tweet-button query would find. The `finally`
     block runs even after the early return for an empty snapshot; its exit
     branch does not check the button for null, and both branches need a
     text node in the button.
     */
    method Callback(sections: seq<Section>, tweetButton: DomElement?)
      requires Valid()
      requires Decide(AnyMissing(sections), isReportingMissingLabels) == Dismiss ==> tweetButton != null
      requires Decide(AnyMissing(sections), isReportingMissingLabels) != Stay && tweetButton != null ==>
        Label(tweetButton.children).Some?
      modifies this, tweetButton
      ensures Valid()
      ensures isReportingMissingLabels ==
        NextReporting(AnyMissing(sections), old(isReportingMissingLabels), tweetButton != null)
      ensures |sections| == 0 ==> !isReportingMissingLabels
      ensures Decide(AnyMissing(sections), old(isReportingMissingLabels)) == Report && tweetButton != null ==>
        && tweetButton.children == SetLabel(old(tweetButton.children), DISABLED_BUTTON_TEXT)
        && Label(tweetButton.children) == Some(DISABLED_BUTTON_TEXT)
        && tweetButton.classes == AddClass(old(tweetButton.classes), DISABLED_CLASS_NAME)
      ensures Decide(AnyMissing(sections), old(isReportingMissingLabels)) == Report && tweetButton != null ==>
        initialTweetButtonText ==
          if old(initialTweetButtonText).None? then old(Label(tweetButton.children)) else old(initialTweetButtonText)
      ensures Decide(AnyMissing(sections), old(isReportingMissingLabels)) == Dismiss ==>
        && tweetButton.children == SetLabel(old(tweetButton.children), ExitText(old(initialTweetButtonText)))
        && Label(tweetButton.children) == Some(ExitText(old(initialTweetButtonText)))
        && tweetButton.classes == RemoveClass(old(tweetButton.classes), DISABLED_CLASS_NAME)
        && initialTweetButtonText == old(initialTweetButtonText)
      ensures tweetButton != null ==>
        tweetButton.display == old(tweetButton.display) && tweetButton.parent == old(tweetButton.parent)
      ensures Decide(AnyMissing(sections), old(isReportingMissingLabels)) == Stay || tweetButton == null ==>
        unchanged(this) && (tweetButton != null ==> unchanged(tweetButton))
    {
      var hasMissingLabels := Classify(sections);
      if hasMissingLabels && !isReportingMissingLabels {
        if tweetButton != null {
          WriteTextToButtonNode(tweetButton, DISABLED_BUTTON_TEXT);
          if DISABLED_CLASS_NAME !in tweetButton.classes {
            tweetButton.classes := AddClass(tweetButton.classes, DISABLED_CLASS_NAME);
          }
          isReportingMissingLabels := true;
        }
      } else if !hasMissingLabels && isReportingMissingLabels {
        WriteTextToButtonNode(tweetButton, ExitText(initialTweetButtonText));
        isReportingMissingLabels := false;
        tweetButton.classes := RemoveClass(tweetButton.classes, DISABLED_CLASS_NAME);
      }
    }
  }

  /**
   One block cycle on the same button: a batch with an unlabelled image,
   then a batch without one, leave the button's label and classes as they
   were and the gate idle with the label captured.
   */
  method EnterThenExit(gate: Gate, missing: seq<Section>, complete: seq<Section>, button: DomElement)
    requires gate.Valid() && !gate.isReportingMissingLabels
    requires gate.initialTweetButtonText.None? || gate.initialTweetButtonText == Label(button.children)
    requires AnyMissing(missing) && !AnyMissing(complete)
    requires Label(button.children).Some? && Label(button.children).value != ""
    requires DISABLED_CLASS_NAME !in button.classes
    modifies gate, button
    ensures gate.Valid() && !gate.isReportingMissingLabels
    ensures gate.initialTweetButtonText == old(Label(button.children))
    ensures button.children == old(button.children) && button.classes == old(button.classes)
  {
    ghost var children, classes, initialText := button.children, button.classes, gate.initialTweetButtonText;
    gate.Callback(missing, button);
    SetLabelWrites(children, DISABLED_BUTTON_TEXT);
    gate.Callback(complete, button);
    EnterExitRestoresButton(children, classes, initialText);
  }
}
