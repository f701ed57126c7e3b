/** The typewriter engine of the tablet screen component: a FIFO queue of
    pending messages guarded by a last-id watermark, a single message being
    typed one UTF-16 code unit per interval tick, and a window of at most twelve
    completed lines.

    The component's three effects and its interval callback run one at a
    time; each becomes a step. `Engine` is the component's state as a value
    and `IngestStep`, `DispatchStep` and `TickStep` say what one step does to
    it; the class `Screen` holds the same state in fields that its methods
    update in place, and each method is proved to perform its step. */
module TabletScreen {
  import opened Common
  import opened JsText
  import opened Messages

  /** Completed lines kept on the page. */
  const MaxLines: nat := 12

  /** The message queued once when the component mounts. */
  const InitMessage := Message("init", None, Some(BmpUnits(InitText)), None)

  /** The startup message's text. */
  const InitText := "SYSTEM ONLINE... WAITING FOR INPUT..."

  /** The component's state: `queue`, the `lastMsgIdRef` watermark,
      `currentMessage`, the animator's `charIndex`, `typingLine` and
      `completedLines`. */
  datatype Engine = Engine(
    queue: seq<Message>,
    lastId: Option<string>,
    current: Option<Message>,
    charIndex: nat,
    typingLine: JsString,
    completedLines: seq<JsString>)

  /** What the state can look like between steps: the page is within its cap,
      an idle engine shows no partial line, and a typing engine shows exactly
      the first `charIndex` code units of the current text. */
  predicate WellFormed(e: Engine)
  {
    && |e.completedLines| <= MaxLines
    && match e.current
       case None => e.typingLine == [] && e.charIndex == 0
       case Some(m) => e.charIndex <= |TextOf(m)| && e.typingLine == TextOf(m)[..e.charIndex]
  }

  /** The messages not yet completed, in the order they will be typed: the
      current one first, then the queue. */
  function Backlog(e: Engine): seq<Message>
  {
    (if e.current.Some? then [e.current.value] else []) + e.queue
  }

  /** Effect 1, run whenever the `messages` prop changes: only the last
      element is looked at, and it is queued unless its id equals the id
      queued most recently. */
  function IngestStep(e: Engine, messages: Option<seq<Message>>): (r: Engine)
    ensures r.current == e.current && r.charIndex == e.charIndex
    ensures r.typingLine == e.typingLine && r.completedLines == e.completedLines
    ensures e.queue <= r.queue && |r.queue| <= |e.queue| + 1
    // nothing is queued for an absent or empty array, or for a redelivery of the latest id
    ensures |r.queue| == |e.queue| + 1 <==>
              messages.Some? && messages.value != [] &&
              e.lastId != Some(messages.value[|messages.value| - 1].id)
    ensures |r.queue| == |e.queue| ==> r == e
    // an accepted message joins the tail and becomes the watermark
    ensures |r.queue| == |e.queue| + 1 ==>
              var latest := messages.value[|messages.value| - 1];
              r.queue[|e.queue|] == latest && r.lastId == Some(latest.id)
    ensures WellFormed(e) ==> WellFormed(r)
  {
    if messages.None? || |messages.value| == 0 then e
    else
      var latest := messages.value[|messages.value| - 1];
      if e.lastId == Some(latest.id) then e
      else e.(lastId := Some(latest.id), queue := e.queue + [latest])
  }

  /** Effect 2: when nothing is being typed and the queue is not empty, the
      head of the queue becomes the current message and the animator effect
      restarts with its counter at zero. */
  function DispatchStep(e: Engine): (r: Engine)
    ensures r.lastId == e.lastId && r.completedLines == e.completedLines
    ensures r.typingLine == e.typingLine
    // a message being typed is never displaced
    ensures e.current.Some? ==> r == e
    ensures r.current.Some? <==> e.current.Some? || e.queue != []
    // the head leaves the queue and nothing is lost or reordered
    ensures Backlog(r) == Backlog(e)
    ensures e.current.None? && e.queue != [] ==>
              r.current == Some(e.queue[0]) && r.queue == e.queue[1..] && r.charIndex == 0
    ensures WellFormed(e) ==> WellFormed(r)
  {
    if e.current.None? && |e.queue| > 0 then
      e.(current := Some(e.queue[0]), queue := e.queue[1..], charIndex := 0)
    else e
  }

  /** Effect 3's interval callback: show one more code unit; on the tick
      after the whole text is shown, append the full text to the page
      (dropping the oldest line beyond twelve), clear the typing line and
      release the current message. */
  function TickStep(e: Engine): (r: Engine)
    ensures r.queue == e.queue && r.lastId == e.lastId
    ensures e.current.None? ==> r == e
    ensures WellFormed(e) ==> WellFormed(r)
    ensures WellFormed(e) && e.current.Some? ==>
              var text := TextOf(e.current.value);
              if e.charIndex < |text| then
                // still typing: the shown line grows by one and stays a prefix of the text
                && r.current == e.current && r.charIndex == e.charIndex + 1
                && r.typingLine == text[..r.charIndex] && e.typingLine < r.typingLine
                && r.completedLines == e.completedLines
              else
                // done: the full text, not a partial line, reaches the page
                && r.current.None? && r.typingLine == [] && r.charIndex == 0
                && r.completedLines == KeepLast(e.completedLines + [text], MaxLines)
  {
    match e.current
    case None => e
    case Some(m) =>
      var text := TextOf(m);
      var shown := SliceTo(text, e.charIndex + 1);
      if e.charIndex + 1 > |text| then
        e.(completedLines := KeepLast(e.completedLines + [text], MaxLines),
           typingLine := [], current := None, charIndex := 0)
      else
        e.(typingLine := shown, charIndex := e.charIndex + 1)
  }

  /** `k` interval ticks in a row. */
  function Ticks(e: Engine, k: nat): Engine
    decreases k
  {
    if k == 0 then e else Ticks(TickStep(e), k - 1)
  }

  /** While a message is being typed, `k` more ticks reveal exactly `k` more
      code units: the typing line is always a prefix of the text and never
      shrinks. */
  lemma {:induction false} TicksRevealPrefix(e: Engine, k: nat)
    requires WellFormed(e) && e.current.Some?
    requires e.charIndex + k <= |TextOf(e.current.value)|
    ensures Ticks(e, k) == e.(charIndex := e.charIndex + k,
                              typingLine := TextOf(e.current.value)[..e.charIndex + k])
    decreases k
  {
    if k > 0 {
      TicksRevealPrefix(TickStep(e), k - 1);
    }
  }

  /** Typing finishes on exactly the tick after the last code unit: from any
      point of typing, `|text| - charIndex + 1` ticks complete the message,
      and the page receives its full text. */
  lemma {:induction false} TicksComplete(e: Engine)
    requires WellFormed(e) && e.current.Some?
    ensures var text := TextOf(e.current.value);
            Ticks(e, |text| - e.charIndex + 1) ==
              e.(current := None, charIndex := 0, typingLine := [],
                 completedLines := KeepLast(e.completedLines + [text], MaxLines))
  {
    var text := TextOf(e.current.value);
    var k := |text| - e.charIndex;
    TicksRevealPrefix(e, k);
    var f := Ticks(e, k);
    assert text[..|text|] == text;
    TicksSplit(e, k, 1);
    assert Ticks(f, 1) == TickStep(f);
  }

  /** Running `a` then `b` ticks is running `a + b` ticks. */
  lemma {:induction false} TicksSplit(e: Engine, a: nat, b: nat)
    ensures Ticks(e, a + b) == Ticks(Ticks(e, a), b)
    decreases a
  {
    if a > 0 {
      TicksSplit(TickStep(e), a - 1, b);
    }
  }

  /** A message dispatched to an idle engine is on the page after exactly
      `|text| + 1` ticks (one tick for an empty or absent text), the queue
      has lost just its head, and the watermark is untouched. */
  lemma DispatchThenType(e: Engine)
    requires WellFormed(e) && e.current.None? && e.queue != []
    ensures Ticks(DispatchStep(e), |TextOf(e.queue[0])| + 1) ==
              e.(queue := e.queue[1..],
                 completedLines := KeepLast(e.completedLines + [TextOf(e.queue[0])], MaxLines))
  {
    TicksComplete(DispatchStep(e));
  }

  /** The startup text is stored as its UTF-16 code units. */
  lemma InitTextIsUtf16()
    ensures TextOf(InitMessage) == Utf16(InitText)
  {
    BmpUnitsIsUtf16(InitText);
  }

  /** Typing counts code units: a text ending in a character above U+FFFF
      takes one tick per surrogate, so `hi` followed by such a character
      finishes after five ticks, and after three the typing line ends in an
      unpaired high surrogate. */
  lemma SurrogatesTypedOneByOne(e: Engine)
    requires WellFormed(e) && e.current.None? && e.queue != []
    requires e.queue[0].text == Some(Utf16("hi\U{1F600}"))
    ensures Ticks(DispatchStep(e), 5) ==
              e.(queue := e.queue[1..],
                 completedLines := KeepLast(e.completedLines + [Utf16("hi\U{1F600}")], MaxLines))
    ensures var line := Ticks(DispatchStep(e), 3).typingLine;
            |line| == 3 && IsHighSurrogate(line[2])
  {
    var text := Utf16("hi\U{1F600}");
    AstralCharIsTwoUnits();
    DispatchThenType(e);
    TicksRevealPrefix(DispatchStep(e), 3);
    assert text == EncodeChar('h') + EncodeChar('i') + EncodeChar('\U{1F600}');
  }

  /** Re-running ingestion on the same `messages` value changes nothing. */
  lemma IngestIdempotent(e: Engine, messages: Option<seq<Message>>)
    ensures IngestStep(IngestStep(e, messages), messages) == IngestStep(e, messages)
  {
  }

  /** Only the last element of `messages` matters: arrays that end in the same
      message are ingested alike, whatever precedes it. */
  lemma IngestSeesOnlyLast(e: Engine, earlier: seq<Message>, other: seq<Message>, m: Message)
    ensures IngestStep(e, Some(earlier + [m])) == IngestStep(e, Some(other + [m]))
  {
  }

  /** The watermark remembers one id only: a message whose id was queued
      before, but is not the latest, is queued again. */
  lemma WatermarkRemembersOnlyLatest(e: Engine, m: Message)
    requires e.lastId != Some(m.id)
    ensures IngestStep(e, Some([m])).queue == e.queue + [m]
  {
  }

  /** Completing message `m` keeps the page equal to the newest twelve texts
      of all finished messages. */
  lemma CompletionKeepsPage(finished: seq<Message>, page: seq<JsString>, m: Message)
    requires page == KeepLast(Texts(finished), MaxLines)
    ensures KeepLast(page + [TextOf(m)], MaxLines) == KeepLast(Texts(finished + [m]), MaxLines)
  {
    var history := Texts(finished);
    TextsAppend(finished, [m]);
    assert Texts([m]) == [TextOf(m)];
    assert Texts(finished + [m]) == history + [TextOf(m)];
    KeepLastAppend(history, TextOf(m), MaxLines);
  }

  /** The component's state, updated in place by its effects and its interval
      callback. The ghost `ingested` records every message ever queued and
      `finished` every message whose typing completed. */
  class Screen {
    var queue: seq<Message>
    var lastId: Option<string>
    var current: Option<Message>
    var charIndex: nat
    var typingLine: JsString
    var completedLines: seq<JsString>

    ghost var ingested: seq<Message>
    ghost var finished: seq<Message>

    /** The fields as an `Engine` value. */
    function State(): Engine
      reads this
    {
      Engine(queue, lastId, current, charIndex, typingLine, completedLines)
    }

    /** Besides `WellFormed`: every message ever queued is finished, being
        typed or still queued, in arrival order; and the page holds the texts
        of the newest (at most twelve) finished messages, in the order they
        finished. */
    ghost predicate Valid()
      reads this
    {
      && WellFormed(State())
      && ingested == finished + Backlog(State())
      && completedLines == KeepLast(Texts(finished), MaxLines)
    }

    /** Mounting: the startup effect seeds the queue with the single startup
        message; nothing is typed and the page is empty. */
    constructor ()
      ensures Valid()
      ensures queue == [InitMessage] && lastId == None && current == None
      ensures typingLine == [] && completedLines == []
      ensures ingested == [InitMessage] && finished == []
    {
      queue := [InitMessage];
      lastId := None;
      current := None;
      charIndex := 0;
      typingLine := [];
      completedLines := [];
      ingested := [InitMessage];
      finished := [];
    }

    /** Effect 1 (ingestion). */
    method Ingest(messages: Option<seq<Message>>)
      requires Valid()
      modifies this
      ensures Valid()
      ensures State() == IngestStep(old(State()), messages)
      ensures finished == old(finished)
      ensures ingested == old(ingested) + (queue[|old(queue)|..])
    {
      if messages.None? || |messages.value| == 0 {
        return;
      }
      var latest := messages.value[|messages.value| - 1];
      if lastId == Some(latest.id) {
        return;
      }
      lastId := Some(latest.id);
      queue := queue + [latest];
      ingested := ingested + [latest];
    }

    /** Effect 2 (dispatcher). */
    method Dispatch()
      requires Valid()
      modifies this
      ensures Valid()
      ensures State() == DispatchStep(old(State()))
      ensures ingested == old(ingested) && finished == old(finished)
    {
      if current.None? && |queue| > 0 {
        var next := queue[0];
        queue := queue[1..];
        current := Some(next);
        charIndex := 0;
      }
    }

    /** One call of effect 3's interval callback; with no current message no
        interval is running and nothing happens. */
    method Tick()
      requires Valid()
      modifies this
      ensures Valid()
      ensures State() == TickStep(old(State()))
      ensures ingested == old(ingested)
      ensures finished == old(finished) +
                (if old(current).Some? && current.None? then [old(current).value] else [])
    {
      if current.None? {
        return;
      }
      var text := TextOf(current.value);
      var currentText := SliceTo(text, charIndex + 1);
      typingLine := currentText;
      charIndex := charIndex + 1;
      if charIndex > |text| {
        CompletionKeepsPage(finished, completedLines, current.value);
        completedLines := KeepLast(completedLines + [text], MaxLines);
        typingLine := [];
        finished := finished + [current.value];
        current := None;
        charIndex := 0;
      }
    }
  }
}
