/** The App component: a window of the latest chat messages fed by the
    socket's `new_message` events, the viewer statistics from
    `stats_update`, and the connection flag. */
module App {
  import opened Common
  import opened JsText
  import opened Messages

  /** Messages kept in the window by `new_message`. */
  const WindowSize: nat := 12

  /** `{ viewers, subscribers }` as pushed by the server. */
  datatype Stats = Stats(viewers: int, subscribers: int)

  /** `prev.some(m => m.id === id)`: some message of the window carries
      the id. */
  predicate HasId(window: seq<Message>, id: string)
    ensures HasId(window, id) <==> exists m :: m in window && m.id == id
  {
    exists i :: 0 <= i < |window| && window[i].id == id
  }

  /** No two messages of the window share an id. */
  predicate DistinctIds(window: seq<Message>)
  {
    forall i, j :: 0 <= i < j < |window| ==> window[i].id != window[j].id
  }

  /** What a window built only by `new_message` looks like. */
  predicate GoodWindow(window: seq<Message>)
  {
    |window| <= WindowSize && DistinctIds(window)
  }

  /** The `setMessages` updater of the `new_message` handler: a message whose
      id is already in the window is dropped; otherwise it is appended and
      only the newest twelve are kept. */
  function AddMessage(window: seq<Message>, msg: Message): (r: seq<Message>)
    ensures HasId(window, msg.id) ==> r == window
    ensures !HasId(window, msg.id) ==>
              && |r| == (if |window| < WindowSize then |window| + 1 else WindowSize)
              && r[|r| - 1] == msg
              && r[..|r| - 1] == window[|window| - (|r| - 1)..]
  {
    if HasId(window, msg.id) then window
    else KeepLast(window + [msg], WindowSize)
  }

  /** A suffix of a window with distinct ids has distinct ids and no id the
      window lacks. */
  lemma SuffixKeepsIds(window: seq<Message>, k: nat, id: string)
    requires k <= |window|
    ensures DistinctIds(window) ==> DistinctIds(window[k..])
    ensures !HasId(window, id) ==> !HasId(window[k..], id)
  {
    if DistinctIds(window) {
      forall i, j | 0 <= i < j < |window[k..]|
        ensures window[k..][i].id != window[k..][j].id
      {
        assert window[k..][i] == window[k + i] && window[k..][j] == window[k + j];
      }
    }
    if HasId(window[k..], id) {
      var i :| 0 <= i < |window[k..]| && window[k..][i].id == id;
      assert window[k + i].id == id;
    }
  }

  /** Appending a message with a new id keeps the ids distinct. */
  lemma AppendNewIdKeepsIds(window: seq<Message>, msg: Message)
    requires DistinctIds(window) && !HasId(window, msg.id)
    ensures DistinctIds(window + [msg])
  {
    var r := window + [msg];
    forall i, j | 0 <= i < j < |r|
      ensures r[i].id != r[j].id
    {
      assert r[i] == window[i];
      if j < |window| {
        assert r[j] == window[j];
      }
    }
  }

  /** `new_message` keeps the window at most twelve long with distinct ids. */
  lemma AddMessageKeepsWindowGood(window: seq<Message>, msg: Message)
    requires GoodWindow(window)
    ensures GoodWindow(AddMessage(window, msg))
  {
    if !HasId(window, msg.id) {
      var r := AddMessage(window, msg);
      var k := |window| - (|r| - 1);
      assert r == window[k..] + [msg] by {
        assert r == r[..|r| - 1] + [r[|r| - 1]];
      }
      SuffixKeepsIds(window, k, msg.id);
      AppendNewIdKeepsIds(window[k..], msg);
    }
  }

  /** The window after a sequence of `new_message` events, in order. It
      grows past twelve only if it started longer, and then never grows. */
  function Replay(window: seq<Message>, events: seq<Message>): (r: seq<Message>)
    ensures |r| <= if |window| <= WindowSize then WindowSize else |window|
    decreases |events|
  {
    if events == [] then window
    else Replay(AddMessage(window, events[0]), events[1..])
  }

  /** From a window of at most twelve messages with distinct ids (the empty
      initial window among them), any sequence of `new_message` events leaves
      at most twelve messages with pairwise distinct ids. */
  lemma {:induction false} ReplayKeepsWindowGood(window: seq<Message>, events: seq<Message>)
    requires GoodWindow(window)
    ensures GoodWindow(Replay(window, events))
    decreases |events|
  {
    if events != [] {
      AddMessageKeepsWindowGood(window, events[0]);
      ReplayKeepsWindowGood(AddMessage(window, events[0]), events[1..]);
    }
  }

  /** The debug message's text. */
  const FakeText := "Debug Message check 123..."

  /** The debug button's message; `Date.now()` and `new Date().toISOString()`
      are clock readings passed in as text. */
  function FakeMessage(clockMillis: string, isoTime: string): (r: Message)
    ensures r.id == "debug-" + clockMillis
    ensures r.author == Some("System") && r.timestamp == Some(isoTime)
    ensures r.text == Some(BmpUnits(FakeText))
  {
    Message("debug-" + clockMillis, Some("System"), Some(BmpUnits(FakeText)), Some(isoTime))
  }

  /** The debug text is stored as its UTF-16 code units. */
  lemma FakeTextIsUtf16()
    ensures BmpUnits(FakeText) == Utf16(FakeText)
  {
    BmpUnitsIsUtf16(FakeText);
  }

  /** The `triggerFakeMessage` updater: append, with neither the id check
      nor the cap. */
  function InjectFake(window: seq<Message>, fake: Message): (r: seq<Message>)
    ensures |r| == |window| + 1
    ensures window < r && r[|window|] == fake
  {
    window + [fake]
  }

  /** The debug injector can break both halves of `GoodWindow`: on a full
      window it makes thirteen, and it repeats an id already present. */
  lemma InjectFakeIgnoresCapAndIds(window: seq<Message>, fake: Message)
    ensures |window| >= WindowSize ==> !GoodWindow(InjectFake(window, fake))
    ensures HasId(window, fake.id) ==> !DistinctIds(InjectFake(window, fake))
  {
    if HasId(window, fake.id) {
      var i :| 0 <= i < |window| && window[i].id == fake.id;
      var r := InjectFake(window, fake);
      assert r[i].id == r[|window|].id;
    }
  }

  /** A window the debug injector pushed past twelve is cut back to twelve by
      the next `new_message` that carries a fresh id. */
  lemma AddMessageRestoresCap(window: seq<Message>, msg: Message)
    requires !HasId(window, msg.id)
    ensures |AddMessage(window, msg)| <= WindowSize
  {
  }

  /** The component's state, overwritten by the socket handlers and the debug
      button. */
  class AppState {
    var messages: seq<Message>
    var stats: Stats
    var isConnected: bool

    /** Initial state: no messages, zero statistics, disconnected. */
    constructor ()
      ensures messages == [] && stats == Stats(0, 0) && !isConnected
    {
      messages := [];
      stats := Stats(0, 0);
      isConnected := false;
    }

    /** The socket's `connect` event. */
    method OnConnect()
      modifies this
      ensures isConnected
      ensures messages == old(messages) && stats == old(stats)
    {
      isConnected := true;
    }

    /** The socket's `disconnect` event. */
    method OnDisconnect()
      modifies this
      ensures !isConnected
      ensures messages == old(messages) && stats == old(stats)
    {
      isConnected := false;
    }

    /** The socket's `new_message` event. */
    method OnNewMessage(msg: Message)
      modifies this
      ensures messages == AddMessage(old(messages), msg)
      ensures GoodWindow(old(messages)) ==> GoodWindow(messages)
      ensures stats == old(stats) && isConnected == old(isConnected)
    {
      if GoodWindow(messages) {
        AddMessageKeepsWindowGood(messages, msg);
      }
      messages := AddMessage(messages, msg);
    }

    /** The socket's `stats_update` event: the statistics are replaced
        wholesale. */
    method OnStatsUpdate(newStats: Stats)
      modifies this
      ensures stats == newStats
      ensures messages == old(messages) && isConnected == old(isConnected)
    {
      stats := newStats;
    }

    /** The debug button. */
    method TriggerFakeMessage(clockMillis: string, isoTime: string)
      modifies this
      ensures messages == InjectFake(old(messages), FakeMessage(clockMillis, isoTime))
      ensures stats == old(stats) && isConnected == old(isConnected)
    {
      var fake := FakeMessage(clockMillis, isoTime);
      messages := messages + [fake];
    }
  }
}
