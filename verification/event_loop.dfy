/** `SteamDeckDevice::event_loop`: wait for readiness events, read one input
    report per event that carries the device's token, decode it, and send
    every non-empty button set down the channel; stop when a send fails.

    The readiness events, the report each read returns and the moment the
    receiving end of the channel goes away are parameters. The source loops
    forever; the model runs over a finite stretch of events, flattened across
    `poll` calls. The report decoder is reached through the boxed protocol
    interface, so it is a parameter too; for version 1 it is `V1.Parse`. */
module EventLoop {
  import opened Wrappers
  import opened Buttons
  import opened Interface
  import V1

  /** One readiness event: its token, and what reading a report would give. */
  datatype Event = Event(token: nat, read: Result<V1.Report, IoError>)

  /** The receiver: `None` keeps it forever; `Some(n)` drops it after it has
      received `n` button sets, so the next send fails. */
  type Receiver = Option<nat>

  /** The protocol interface's `parse`. */
  type Decoder = V1.Report -> ButtonSet

  /** What one event sends: the decoded report, when the event is ours, the
      read succeeds and the decoded set is not empty. */
  function Contribution(parse: Decoder, token: nat, e: Event): (out: seq<ButtonSet>)
    ensures |out| <= 1
    ensures out != [] ==> e.token == token && e.read.Success? && out == [parse(e.read.value)] && out[0] != {}
  {
    if e.token == token && e.read.Success? && parse(e.read.value) != {} then [parse(e.read.value)] else []
  }

  /** The `!out.is_empty()` test is a test on the `u32`: an event of ours whose
      read succeeds sends exactly when the decoded value has a bit set. */
  lemma SendsWhenBitsSet(parse: Decoder, token: nat, e: Event)
    requires e.token == token && e.read.Success?
    ensures Contribution(parse, token, e) != [] <==> Mask(parse(e.read.value)) != Empty
  {
    MaskDecodes(parse(e.read.value));
  }

  /** Everything a run over `events` would send if the receiver never went away. */
  function Decodes(parse: Decoder, token: nat, events: seq<Event>): seq<ButtonSet> {
    if events == [] then [] else Decodes(parse, token, events[..|events| - 1]) + Contribution(parse, token, events[|events| - 1])
  }

  /** The number of events that carry our token, that is, of reads made. */
  function ReadCount(token: nat, events: seq<Event>): nat {
    if events == [] then 0
    else ReadCount(token, events[..|events| - 1]) + (if events[|events| - 1].token == token then 1 else 0)
  }

  /** Running over two stretches of events sends what each would send, in order. */
  lemma {:induction false} DecodesAppend(parse: Decoder, token: nat, a: seq<Event>, b: seq<Event>)
    ensures Decodes(parse, token, a + b) == Decodes(parse, token, a) + Decodes(parse, token, b)
  {
    if b != [] {
      var last := |b| - 1;
      assert (a + b)[..|a + b| - 1] == a + b[..last];
      DecodesAppend(parse, token, a, b[..last]);
    } else {
      assert a + b == a;
    }
  }

  lemma {:induction false} ReadCountAppend(token: nat, a: seq<Event>, b: seq<Event>)
    ensures ReadCount(token, a + b) == ReadCount(token, a) + ReadCount(token, b)
  {
    if b != [] {
      var last := |b| - 1;
      assert (a + b)[..|a + b| - 1] == a + b[..last];
      ReadCountAppend(token, a, b[..last]);
    } else {
      assert a + b == a;
    }
  }

  /** One more event adds its own contribution at the end. */
  lemma DecodesStep(parse: Decoder, token: nat, events: seq<Event>, i: nat)
    requires i < |events|
    ensures Decodes(parse, token, events[..i + 1]) == Decodes(parse, token, events[..i]) + Contribution(parse, token, events[i])
    ensures ReadCount(token, events[..i + 1]) == ReadCount(token, events[..i]) + (if events[i].token == token then 1 else 0)
  {
    assert events[..i + 1][..i] == events[..i];
  }

  /** Every sent set is non-empty and was decoded from a report read for one
      of our events. */
  lemma {:induction false} DecodesComeFromReads(parse: Decoder, token: nat, events: seq<Event>)
    ensures forall k | 0 <= k < |Decodes(parse, token, events)| :: Decodes(parse, token, events)[k] != {}
    ensures forall k | 0 <= k < |Decodes(parse, token, events)| :: exists i | 0 <= i < |events| ::
      events[i].token == token && events[i].read.Success? && Decodes(parse, token, events)[k] == parse(events[i].read.value)
  {
    if events != [] {
      var last := |events| - 1;
      var init := events[..last];
      var c := Contribution(parse, token, events[last]);
      assert Decodes(parse, token, events) == Decodes(parse, token, init) + c;
      DecodesComeFromReads(parse, token, init);
      forall k | 0 <= k < |Decodes(parse, token, events)|
        ensures Decodes(parse, token, events)[k] != {}
        ensures exists i | 0 <= i < |events| ::
          events[i].token == token && events[i].read.Success? && Decodes(parse, token, events)[k] == parse(events[i].read.value)
      {
        if k < |Decodes(parse, token, init)| {
          assert Decodes(parse, token, events)[k] == Decodes(parse, token, init)[k];
          var i :| 0 <= i < |init| && init[i].token == token && init[i].read.Success? && Decodes(parse, token, init)[k] == parse(init[i].read.value);
          assert events[i] == init[i];
        } else {
          assert c != [] && Decodes(parse, token, events)[k] == c[0];
          assert events[last].token == token && events[last].read.Success? && c[0] == parse(events[last].read.value);
        }
      }
    } else {
      assert Decodes(parse, token, events) == [];
    }
  }

  /** An event that sends nothing may be dropped from the stream. */
  lemma SilentEventInvisible(parse: Decoder, token: nat, before: seq<Event>, e: Event, after: seq<Event>)
    requires Contribution(parse, token, e) == []
    ensures Decodes(parse, token, before + [e] + after) == Decodes(parse, token, before + after)
  {
    var sent := Decodes(parse, token, before);
    assert Decodes(parse, token, before + [e]) == sent by {
      assert [e][..0] == [];
      assert Decodes(parse, token, [e]) == [];
      DecodesAppend(parse, token, before, [e]);
    }
    assert Decodes(parse, token, before + [e] + after) == sent + Decodes(parse, token, after) by {
      DecodesAppend(parse, token, before + [e], after);
    }
    DecodesAppend(parse, token, before, after);
  }

  /** An event that is not ours, or whose read fails, changes nothing that is
      sent, wherever it comes in the stream. */
  lemma IgnoredEventInvisible(parse: Decoder, token: nat, before: seq<Event>, e: Event, after: seq<Event>)
    requires e.token != token || e.read.Failure?
    ensures Decodes(parse, token, before + [e] + after) == Decodes(parse, token, before + after)
  {
    SilentEventInvisible(parse, token, before, e, after);
  }

  /** A report that decodes to no button sends nothing. */
  lemma EmptyDecodeInvisible(parse: Decoder, token: nat, before: seq<Event>, report: V1.Report, after: seq<Event>)
    requires parse(report) == {}
    ensures Decodes(parse, token, before + [Event(token, Success(report))] + after) == Decodes(parse, token, before + after)
  {
    SilentEventInvisible(parse, token, before, Event(token, Success(report)), after);
  }

  /** With the version 1 decoder, a report that is not an input report (byte 2
      is not 9) sends nothing. */
  lemma OtherReportKindsInvisible(token: nat, before: seq<Event>, report: V1.Report, after: seq<Event>)
    requires report[V1.ReportKindOffset] != V1.InputReportKind
    ensures Decodes(V1.Parse, token, before + [Event(token, Success(report))] + after) == Decodes(V1.Parse, token, before + after)
  {
    EmptyDecodeInvisible(V1.Parse, token, before, report, after);
  }

  /** A failed read still costs one read: the loop goes on to the next event. */
  lemma ReadErrorCountsOnce(token: nat, before: seq<Event>, err: IoError, after: seq<Event>)
    ensures ReadCount(token, before + [Event(token, Failure(err))] + after) == ReadCount(token, before + after) + 1
  {
    var e := Event(token, Failure(err));
    ReadCountAppend(token, before + [e], after);
    ReadCountAppend(token, before, [e]);
    ReadCountAppend(token, before, after);
    assert [e][..0] == [];
  }

  /** `s` is the set of buttons pressed in the input report read for event `i`. */
  predicate PressedIn(token: nat, events: seq<Event>, i: int, s: ButtonSet) {
    && 0 <= i < |events|
    && events[i].token == token
    && events[i].read.Success?
    && events[i].read.value[V1.ReportKindOffset] == V1.InputReportKind
    && forall b :: b in s <==> V1.Pressed(events[i].read.value, V1.PositionOf(b))
  }

  /** With the version 1 decoder, the `k`-th set sent is the set of buttons
      pressed in an input report read for one of our events. */
  lemma V1SentSetIsPress(token: nat, events: seq<Event>, k: nat)
    requires k < |Decodes(V1.Parse, token, events)|
    ensures exists i :: PressedIn(token, events, i, Decodes(V1.Parse, token, events)[k])
  {
    DecodesComeFromReads(V1.Parse, token, events);
    var i :| 0 <= i < |events| && events[i].token == token && events[i].read.Success?
      && Decodes(V1.Parse, token, events)[k] == V1.Parse(events[i].read.value);
    var report := events[i].read.value;
    assert V1.Parse(report) != {};
    V1.ParseDecodes(report);
    assert PressedIn(token, events, i, Decodes(V1.Parse, token, events)[k]);
  }

  /** A run over a prefix of the events sends a prefix of what the whole run
      sends, and reads no more. */
  lemma DecodesPrefix(parse: Decoder, token: nat, events: seq<Event>, n: nat)
    requires n <= |events|
    ensures |Decodes(parse, token, events[..n])| <= |Decodes(parse, token, events)|
    ensures Decodes(parse, token, events)[..|Decodes(parse, token, events[..n])|] == Decodes(parse, token, events[..n])
    ensures ReadCount(token, events[..n]) <= ReadCount(token, events)
  {
    assert events[..n] + events[n..] == events;
    DecodesAppend(parse, token, events[..n], events[n..]);
    ReadCountAppend(token, events[..n], events[n..]);
  }

  /** When the event at `i` has something to send, the run up to and
      including it sends strictly more than the run before it. */
  lemma SendPending(parse: Decoder, token: nat, events: seq<Event>, i: nat)
    requires i < |events|
    requires Contribution(parse, token, events[i]) != []
    ensures |Decodes(parse, token, events[..i])| < |Decodes(parse, token, events)|
    ensures Decodes(parse, token, events)[..|Decodes(parse, token, events[..i])|] == Decodes(parse, token, events[..i])
    ensures ReadCount(token, events[..i + 1]) <= ReadCount(token, events)
  {
    DecodesStep(parse, token, events, i);
    DecodesPrefix(parse, token, events, i + 1);
    var before := Decodes(parse, token, events[..i]);
    var after := Decodes(parse, token, events[..i + 1]);
    assert after[..|before|] == before;
  }

  /** The loop. `sent` is what the receiver got, `reportsRead` the number of
      reports read, and `exited` tells whether a send failed and ended the loop. */
  method Run(parse: Decoder, token: nat, events: seq<Event>, receiver: Receiver)
    returns (sent: seq<ButtonSet>, reportsRead: nat, exited: bool)
    ensures exited <==> receiver.Some? && receiver.value < |Decodes(parse, token, events)|
    ensures exited ==> sent == Decodes(parse, token, events)[..receiver.value]
    ensures !exited ==> sent == Decodes(parse, token, events) && reportsRead == ReadCount(token, events)
    ensures reportsRead <= ReadCount(token, events)
  {
    sent, reportsRead, exited := [], 0, false;
    var i := 0;
    while i < |events|
      invariant 0 <= i <= |events|
      invariant reportsRead == ReadCount(token, events[..i])
      invariant sent == Decodes(parse, token, events[..i])
      invariant receiver.None? || |sent| <= receiver.value
    {
      var e := events[i];
      DecodesStep(parse, token, events, i);
      if e.token == token {
        reportsRead := reportsRead + 1;
        match e.read {
          case Success(report) =>
            var out := parse(report);
            if out != {} {
              if receiver.Some? && |sent| == receiver.value {
                // The receiver is gone: the send fails and the loop returns.
                exited := true;
                SendPending(parse, token, events, i);
                return;
              }
              sent := sent + [out];
            }
          case Failure(_) =>
        }
      }
      i := i + 1;
    }
    assert events[..i] == events;
  }
}
