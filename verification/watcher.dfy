/** `ClipboardWatcher`: the change-detection step of the polling loop as a pure
    function, its fold over a sequence of polls, and the watcher's state
    machine (running flag, receiver hand-off, delivery into the channel).
    Timing, spawning and locking are not modelled: steps run one at a time. */
module Watcher {
  import opened Wrappers
  import opened Errors
  import opened Text
  import opened Uuids
  import opened Clipboard

  /** `contents_equal`. */
  function ContentsEqual(a: ClipboardContent, b: ClipboardContent): (r: bool)
    ensures r <==> a == b
  {
    match (a, b)
    case (Text(x), Text(y)) => x == y
    case (Image(da, ma), Image(db, mb)) =>
      ma.width == mb.width && ma.height == mb.height
      && ma.bytesPerPixel == mb.bytesPerPixel && da == db
    case _ => false
  }

  /** The comparison is structural equality, hence reflexive and symmetric. */
  lemma ContentsEqualIsEquality(a: ClipboardContent, b: ClipboardContent)
    ensures ContentsEqual(a, b) <==> a == b
    ensures ContentsEqual(a, a)
    ensures ContentsEqual(a, b) == ContentsEqual(b, a)
    ensures a.Text? != b.Text? ==> !ContentsEqual(a, b)
  {
  }

  // One tick of the loop

  /** What one tick obtains from the clipboard: the manager could not be
      built, or the result of `get_current_content`. */
  datatype Reading = ManagerFailed | Read(result: Result<Option<ClipboardContent>, ClipboardError>)

  /** One tick's inputs: the reading, and the uuid and time a new item would get. */
  datatype Poll = Poll(reading: Reading, id: Uuid, now: Timestamp)

  /** The reading a tick obtains from the two library reads. */
  function Sample(managerOk: bool, text: Result<Str, ClipboardError>,
                  image: Result<ImageData, ClipboardError>): (r: Reading)
    ensures r.Read? <==> managerOk
    ensures r.Read? ==> r.result.Ok? && r.result.value != Some(Text([]))
  {
    if managerOk then Read(CurrentContent(text, image)) else ManagerFailed
  }

  /** The content a reading reports, if any. */
  function Observed(r: Reading): Option<ClipboardContent> {
    match r
    case Read(Ok(Some(c))) => Some(c)
    case _ => None
  }

  datatype StepResult = StepResult(last: Option<ClipboardContent>, emitted: Option<ClipboardItem>)

  /** The body of the loop (one tick): a content different from the last one
      seen becomes the last one seen and is emitted as a fresh unpinned item;
      anything else emits nothing and forgets nothing. */
  function Step(last: Option<ClipboardContent>, poll: Poll): (r: StepResult)
    ensures r.emitted.Some? <==> Observed(poll.reading).Some? && Observed(poll.reading) != last
    ensures r.emitted.Some? ==>
              && r.last == Observed(poll.reading)
              && r.emitted.value == NewItem(Observed(poll.reading).value, poll.id, poll.now)
    ensures r.emitted.None? ==> r.last == last
  {
    match poll.reading
    case Read(Ok(Some(current))) =>
      var changed := match last
        case Some(l) => !ContentsEqual(l, current)
        case None => true;
      if changed then StepResult(Some(current), Some(NewItem(current, poll.id, poll.now)))
      else StepResult(last, None)
    case Read(Ok(None)) => StepResult(last, None)
    case Read(Err(_)) => StepResult(last, None)
    case ManagerFailed => StepResult(last, None)
  }

  // The loop over a sequence of polls

  function Contents(items: seq<ClipboardItem>): (r: seq<ClipboardContent>)
    ensures |r| == |items|
    ensures forall i :: 0 <= i < |items| ==> r[i] == items[i].content
  {
    seq(|items|, i requires 0 <= i < |items| => items[i].content)
  }

  /** No two neighbours are equal. */
  predicate NoAdjacentRepeats(cs: seq<ClipboardContent>) {
    forall i :: 0 < i < |cs| ==> cs[i - 1] != cs[i]
  }

  datatype WatchResult = WatchResult(last: Option<ClipboardContent>, emitted: seq<ClipboardItem>)

  function Emitted(o: Option<ClipboardItem>): seq<ClipboardItem> {
    match o case Some(it) => [it] case None => []
  }

  /** The loop run over `polls`, starting from `last`: the last content seen
      and every item emitted, in order. Emitted contents never repeat back to
      back, the first differs from the starting content, and the last content
      seen is that of the last item emitted. */
  function Watch(last: Option<ClipboardContent>, polls: seq<Poll>): (r: WatchResult)
    ensures NoAdjacentRepeats(Contents(r.emitted))
    ensures |r.emitted| > 0 ==> Some(r.emitted[0].content) != last
    ensures r.last == if |r.emitted| > 0 then Some(r.emitted[|r.emitted| - 1].content) else last
    ensures forall i :: 0 <= i < |r.emitted| ==> !r.emitted[i].pinned
  {
    if |polls| == 0 then WatchResult(last, [])
    else
      var before := Watch(last, polls[..|polls| - 1]);
      var s := Step(before.last, polls[|polls| - 1]);
      ExtendRun(last, before, polls[|polls| - 1]);
      WatchResult(s.last, before.emitted + Emitted(s.emitted))
  }

  /** A reading a tick can actually obtain: `Sample` never yields an error or
      empty text. */
  predicate Sampled(r: Reading) {
    r == ManagerFailed || (r.Read? && r.result.Ok? && r.result.value != Some(Text([])))
  }

  /** Every reading `Sample` produces is one a tick can obtain. */
  lemma SampleIsSampled(managerOk: bool, text: Result<Str, ClipboardError>,
                        image: Result<ImageData, ClipboardError>)
    ensures Sampled(Sample(managerOk, text, image))
  {
  }

  /** Over polls whose readings come from `Sample`, the loop never emits an
      empty text. */
  lemma {:induction false} SampledRunHasNoBlankText(last: Option<ClipboardContent>, polls: seq<Poll>)
    requires forall i :: 0 <= i < |polls| ==> Sampled(polls[i].reading)
    ensures forall i :: 0 <= i < |Watch(last, polls).emitted| ==>
              Watch(last, polls).emitted[i].content != Text([])
  {
    if |polls| > 0 {
      var init := polls[..|polls| - 1];
      SampledRunHasNoBlankText(last, init);
      var before := Watch(last, init);
      var s := Step(before.last, polls[|polls| - 1]);
      assert Watch(last, polls).emitted == before.emitted + Emitted(s.emitted);
      assert Sampled(polls[|polls| - 1].reading);
    }
  }

  /** One step keeps the properties `Watch` promises of a run. */
  lemma ExtendRun(start: Option<ClipboardContent>, before: WatchResult, p: Poll)
    requires NoAdjacentRepeats(Contents(before.emitted))
    requires |before.emitted| > 0 ==> Some(before.emitted[0].content) != start
    requires before.last == if |before.emitted| > 0 then Some(before.emitted[|before.emitted| - 1].content) else start
    requires forall i :: 0 <= i < |before.emitted| ==> !before.emitted[i].pinned
    ensures var s := Step(before.last, p);
            var e := before.emitted + Emitted(s.emitted);
            && NoAdjacentRepeats(Contents(e))
            && (|e| > 0 ==> Some(e[0].content) != start)
            && s.last == (if |e| > 0 then Some(e[|e| - 1].content) else start)
            && (forall i :: 0 <= i < |e| ==> !e[i].pinned)
  {
    var s := Step(before.last, p);
    var e := before.emitted + Emitted(s.emitted);
    if s.emitted.Some? {
      var n := |before.emitted|;
      assert e[n] == s.emitted.value;
      assert forall i :: 0 <= i < n ==> e[i] == before.emitted[i];
    } else {
      assert e == before.emitted;
    }
  }

  /** One more poll extends the run by exactly what one step from the last
      content seen produces: every change is emitted once, at the poll that
      shows it. */
  lemma WatchSnoc(last: Option<ClipboardContent>, polls: seq<Poll>, p: Poll)
    ensures var before := Watch(last, polls);
            var s := Step(before.last, p);
            Watch(last, polls + [p]) == WatchResult(s.last, before.emitted + Emitted(s.emitted))
  {
    assert (polls + [p])[..|polls|] == polls;
  }

  /** Polls that report no content (empty clipboard, a read error, a manager
      failure) can be dropped from a run without changing it. */
  lemma {:induction false} WatchIgnoresBlankPolls(last: Option<ClipboardContent>, polls: seq<Poll>, blank: Poll, i: nat)
    requires Observed(blank.reading).None?
    requires i <= |polls|
    ensures Watch(last, polls[..i] + [blank] + polls[i..]) == Watch(last, polls)
    decreases |polls|
  {
    var longer := polls[..i] + [blank] + polls[i..];
    if i == |polls| {
      assert longer == polls + [blank];
      WatchSnoc(last, polls, blank);
    } else {
      var init := polls[..|polls| - 1];
      var p := polls[|polls| - 1];
      var shorter := init[..i] + [blank] + init[i..];
      InsertBeforeLast(polls, blank, i);
      assert longer == shorter + [p];
      WatchIgnoresBlankPolls(last, init, blank, i);
      WatchSnoc(last, shorter, p);
      WatchSnoc(last, init, p);
    }
  }

  lemma InsertBeforeLast<T>(xs: seq<T>, x: T, i: nat)
    requires i < |xs|
    ensures xs[..i] + [x] + xs[i..] == (xs[..|xs| - 1][..i] + [x] + xs[..|xs| - 1][i..]) + [xs[|xs| - 1]]
    ensures xs == xs[..|xs| - 1] + [xs[|xs| - 1]]
  {
  }

  function TextPoll(t: Str, id: Uuid, now: Timestamp): Poll {
    Poll(Read(Ok(Some(Text(t)))), id, now)
  }

  /** Reads "x", "x", "y": two items, for "x" and for "y". */
  lemma RepeatedReadEmitsOnce(id1: Uuid, id2: Uuid, id3: Uuid)
    ensures var x: Str := [0x78];
            var y: Str := [0x79];
            Contents(Watch(None, [TextPoll(x, id1, 1), TextPoll(x, id2, 2), TextPoll(y, id3, 3)]).emitted)
              == [Text(x), Text(y)]
  {
    var x: Str := [0x78];
    var y: Str := [0x79];
    var a, b, c := TextPoll(x, id1, 1), TextPoll(x, id2, 2), TextPoll(y, id3, 3);
    WatchSnoc(None, [], a);
    assert [] + [a] == [a];
    WatchSnoc(None, [a], b);
    assert [a] + [b] == [a, b];
    WatchSnoc(None, [a, b], c);
    assert [a, b] + [c] == [a, b, c];
  }

  /** Reads "x", empty, "x": one item, because an empty clipboard does not
      reset the last content seen. */
  lemma EmptyReadDoesNotReset(id1: Uuid, id2: Uuid, id3: Uuid)
    ensures var x: Str := [0x78];
            |Watch(None, [TextPoll(x, id1, 1), Poll(Read(Ok(None)), id2, 2), TextPoll(x, id3, 3)]).emitted| == 1
  {
    var x: Str := [0x78];
    var a, b, c := TextPoll(x, id1, 1), Poll(Read(Ok(None)), id2, 2), TextPoll(x, id3, 3);
    TextThenBlank(x, id1, id2);
    WatchSnoc(None, [a, b], c);
    assert [a, b] + [c] == [a, b, c];
  }

  /** A text read followed by an empty clipboard: one item, and the text is
      still the last content seen. */
  lemma TextThenBlank(x: Str, id1: Uuid, id2: Uuid)
    ensures var w := Watch(None, [TextPoll(x, id1, 1), Poll(Read(Ok(None)), id2, 2)]);
            w.last == Some(Text(x)) && |w.emitted| == 1
  {
    var a, b := TextPoll(x, id1, 1), Poll(Read(Ok(None)), id2, 2);
    WatchSnoc(None, [], a);
    assert [] + [a] == [a];
    WatchSnoc(None, [a], b);
    assert [a] + [b] == [a, b];
  }

  // The watcher object

  /** Where the channel's receiving end is: still inside the watcher, handed
      out by `take_receiver`, or dropped by whoever took it. */
  datatype Receiver = Held | Taken | Dropped

  /** `running` and `last_content` as in the Rust code; `receiver` tracks the
      receiving end; `delivered` is every item the channel has accepted. */
  datatype WatcherState = WatcherState(
    running: bool,
    last: Option<ClipboardContent>,
    receiver: Receiver,
    delivered: seq<ClipboardItem>)

  /** `ClipboardWatcher::new`. */
  function New(): (w: WatcherState)
    ensures !w.running && w.last.None? && w.receiver == Held && |w.delivered| == 0
  {
    WatcherState(false, None, Held, [])
  }

  datatype Taking = Taking(watcher: WatcherState, gotReceiver: bool)

  /** `take_receiver`: hands the receiver out once; afterwards there is none. */
  function TakeReceiver(w: WatcherState): (r: Taking)
    ensures r.gotReceiver <==> w.receiver == Held
    ensures r.watcher.receiver != Held
    ensures r.watcher == w.(receiver := r.watcher.receiver)
    ensures w.receiver == Held ==> r.watcher.receiver == Taken
    ensures w.receiver != Held ==> r.watcher == w
  {
    if w.receiver == Held then Taking(w.(receiver := Taken), true) else Taking(w, false)
  }

  lemma TakeReceiverOnce()
    ensures var first := TakeReceiver(New());
            first.gotReceiver && !TakeReceiver(first.watcher).gotReceiver
  {
  }

  datatype Starting = Starting(watcher: WatcherState, spawned: bool, result: Result<(), ClipboardError>)

  /** `start`: a no-op when already running, otherwise sets the flag and spawns
      the loop. It always returns `Ok`. */
  function Start(w: WatcherState): (r: Starting)
    ensures r.result.Ok?
    ensures r.spawned <==> !w.running
    ensures r.watcher == w.(running := true)
  {
    if w.running then Starting(w, false, Ok(()))
    else Starting(w.(running := true), true, Ok(()))
  }

  lemma StartIdempotent(w: WatcherState)
    ensures var once := Start(w).watcher;
            Start(once).watcher == once && !Start(once).spawned
  {
  }

  /** `stop`: clears the flag; the loop sees it before its next tick. */
  function Stop(w: WatcherState): (r: WatcherState)
    ensures r == w.(running := false)
  {
    w.(running := false)
  }

  /** Ticks after `stop` find the flag cleared: no reading is acted on and
      nothing more is delivered, until `start` runs again. */
  lemma {:induction false} StoppedLoopIsIdle(w: WatcherState, polls: seq<Poll>)
    ensures Run(Stop(w), seq(|polls|, i requires 0 <= i < |polls| => Tock(polls[i]))) == Stop(w)
    decreases |polls|
  {
    var ticks := seq(|polls|, i requires 0 <= i < |polls| => Tock(polls[i]));
    if |polls| > 0 {
      assert ticks[1..] == seq(|polls[1..]|, i requires 0 <= i < |polls[1..]| => Tock(polls[1..][i]));
      assert Apply(Stop(w), ticks[0]) == Stop(w);
      StoppedLoopIsIdle(w, polls[1..]);
    }
  }

  /** Whoever took the receiver drops it: from then on every send fails. */
  function DropReceiver(w: WatcherState): (r: WatcherState)
    ensures w.receiver == Taken ==> r == w.(receiver := Dropped)
    ensures w.receiver != Taken ==> r == w
  {
    if w.receiver == Taken then w.(receiver := Dropped) else w
  }

  /** One tick of the loop when it runs: the step updates the last content
      seen first, then the item is sent; a failed send (receiver dropped) is
      only logged. A stopped watcher's loop has exited and does nothing. */
  function Tick(w: WatcherState, poll: Poll): (r: WatcherState)
    ensures !w.running ==> r == w
    ensures w.running ==> r.last == Step(w.last, poll).last
    ensures r.running == w.running && r.receiver == w.receiver
    ensures r.delivered == if w.running && w.receiver != Dropped
                           then w.delivered + Emitted(Step(w.last, poll).emitted)
                           else w.delivered
  {
    if !w.running then w
    else
      var s := Step(w.last, poll);
      var delivered := if s.emitted.Some? && w.receiver != Dropped
                       then w.delivered + [s.emitted.value] else w.delivered;
      w.(last := s.last, delivered := delivered)
  }

  /** A failed send does not undo the update of the last content seen. */
  lemma SendFailureKeepsLast(w: WatcherState, poll: Poll)
    requires w.running
    ensures Tick(w.(receiver := Dropped), poll).last == Tick(w.(receiver := Taken), poll).last
  {
  }

  datatype Event = StartWatcher | StopWatcher | TakeIt | DropIt | Tock(poll: Poll)

  function Apply(w: WatcherState, e: Event): WatcherState {
    match e
    case StartWatcher => Start(w).watcher
    case StopWatcher => Stop(w)
    case TakeIt => TakeReceiver(w).watcher
    case DropIt => DropReceiver(w)
    case Tock(p) => Tick(w, p)
  }

  function Run(w: WatcherState, events: seq<Event>): WatcherState
    decreases |events|
  {
    if |events| == 0 then w else Run(Apply(w, events[0]), events[1..])
  }

  /** The channel has never accepted two equal contents back to back, and while
      it accepts sends its newest item holds the last content seen. */
  ghost predicate Deduplicated(w: WatcherState) {
    && NoAdjacentRepeats(Contents(w.delivered))
    && (w.receiver != Dropped && |w.delivered| > 0 ==>
          w.last == Some(w.delivered[|w.delivered| - 1].content))
  }

  lemma ApplyKeepsDeduplicated(w: WatcherState, e: Event)
    requires Deduplicated(w)
    ensures Deduplicated(Apply(w, e))
  {
    if e.Tock? && w.running && w.receiver != Dropped {
      var s := Step(w.last, e.poll);
      var r := Apply(w, e);
      if s.emitted.Some? {
        assert r.delivered == w.delivered + [s.emitted.value];
        assert Contents(r.delivered) == Contents(w.delivered) + [s.emitted.value.content];
      } else {
        assert r.delivered == w.delivered;
      }
    }
  }

  /** Whatever the interleaving of start, stop, receiver hand-off, receiver
      drop and polls, the items delivered to the channel never repeat a
      content back to back. */
  lemma {:induction false} RunDeduplicates(w: WatcherState, events: seq<Event>)
    requires Deduplicated(w)
    ensures Deduplicated(Run(w, events))
    ensures NoAdjacentRepeats(Contents(Run(w, events).delivered))
    decreases |events|
  {
    if |events| > 0 {
      ApplyKeepsDeduplicated(w, events[0]);
      RunDeduplicates(Apply(w, events[0]), events[1..]);
    }
  }

  lemma NewDeduplicated()
    ensures Deduplicated(New())
  {
  }
}
