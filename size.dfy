/** The size accounting of the `ion beta analyze size` command: walk a binary Ion
    system stream one top-level item at a time, record the on-wire footprint of
    every item the reader reports as a (non-null) value, skip every other system
    item, and stop at the end of the stream or at the first decoding error.

    The binary decoder is not modelled: what its `next()` yields, together with
    the lengths it reports for the current value, is given as a sequence of
    events, read front to back. */
module AnalyzeSize {
  import opened Wrappers

  /** The byte lengths the reader reports for the value it is positioned on. */
  datatype Measurement = Measurement(header: nat, annotations: Option<nat>, value: nat)

  /** One step of the system reader:
      - `Value(m)`: an item the reader reports as `SystemStreamItem::Value`, a
        non-null top-level user value, with its framing lengths;
      - `Nothing`: the stream is exhausted;
      - `OtherItem`: any other system stream item (version marker, symbol table,
        a typed null such as `null.int`, a null symbol table, ...);
      - `DecodeError(message)`: `next()` returned an error instead of an item. */
  datatype Event =
    | Value(m: Measurement)
    | Nothing
    | OtherItem
    | DecodeError(message: string)

  /** The analysis of one stream: the recorded sizes, or the error that aborted it. */
  type Analysis = Result<seq<nat>, string>

  /** An event that ends the loop: the end of the stream or an error. */
  predicate IsStop(e: Event) {
    e.Nothing? || e.DecodeError?
  }

  /** No event of `events` ends the loop. */
  predicate NoStop(events: seq<Event>) {
    forall j :: 0 <= j < |events| ==> !IsStop(events[j])
  }

  /** The event the reader yields at position `i`; past the last event the
      stream is exhausted and the reader keeps yielding `Nothing`. */
  function Next(events: seq<Event>, i: nat): Event {
    if i < |events| then events[i] else Nothing
  }

  /** The on-wire footprint of one value, computed as the loop does: with
      annotations, their length plus header and body; without, header and body.
      `ValueSizeRule` and `RecordedSizes` state what the walk records with it. */
  function Footprint(m: Measurement): nat {
    match m.annotations
    case Some(a) => a + m.header + m.value
    case None => m.header + m.value
  }


  /** Puts `vec` in front of the sizes of a successful analysis; a failure stays a failure. */
  function Prepend(vec: seq<nat>, r: Analysis): Analysis {
    match r
    case Success(rest) => Success(vec + rest)
    case Failure(e) => Failure(e)
  }

  /** Prepending in two steps is prepending the concatenation. */
  lemma PrependTwice(vec: seq<nat>, more: seq<nat>, r: Analysis)
    ensures Prepend(vec, Prepend(more, r)) == Prepend(vec + more, r)
  {
    if r.Success? {
      assert vec + (more + r.value) == vec + more + r.value;
    }
  }

  /** The loop of `size_analyze`, written as a recursion over the events. */
  function Sizes(events: seq<Event>): (r: Analysis)
    ensures r.Success? ==> |r.value| <= |events|
  {
    if events == [] then Success([])
    else
      match events[0]
      case Value(m) => Prepend([Footprint(m)], Sizes(events[1..]))
      case Nothing => Success([])
      case OtherItem => Sizes(events[1..])
      case DecodeError(msg) => Failure(msg)
  }

  /** The position of the first event that ends the loop, or `|events|` if none does. */
  function StopAt(events: seq<Event>): (k: nat)
    ensures k <= |events|
    ensures NoStop(events[..k])
    ensures k < |events| ==> IsStop(events[k])
  {
    if events == [] || IsStop(events[0]) then 0
    else
      var k := 1 + StopAt(events[1..]);
      assert events[..k] == [events[0]] + events[1..][..k - 1];
      k
  }

  /** The measurements of the `Value` events, in order; every other event is dropped. */
  function Measurements(events: seq<Event>): (ms: seq<Measurement>)
    ensures |ms| <= |events|
  {
    if events == [] then []
    else if events[0].Value? then [events[0].m] + Measurements(events[1..])
    else Measurements(events[1..])
  }

  /** The footprint of every measurement, position by position. */
  function Footprints(ms: seq<Measurement>): (sizes: seq<nat>)
    ensures |sizes| == |ms|
    ensures forall k :: 0 <= k < |ms| ==> sizes[k] == Footprint(ms[k])
  {
    if ms == [] then [] else [Footprint(ms[0])] + Footprints(ms[1..])
  }

  /** The number of `Value` events, counted by position. */
  ghost function ValueCount(events: seq<Event>): nat {
    |set j | 0 <= j < |events| && events[j].Value?|
  }

  /** What the analysis of a stream is, stated without the loop: the footprints
      of the values that come before the first stopping event, unless that event
      is a decoding error, in which case the analysis fails with it. */
  ghost function Specified(events: seq<Event>): Analysis {
    var k := StopAt(events);
    if k < |events| && events[k].DecodeError? then Failure(events[k].message)
    else Success(Footprints(Measurements(events[..k])))
  }

  /** Filtering the values out of a concatenation filters each part in turn. */
  lemma {:induction false} MeasurementsAppend(a: seq<Event>, b: seq<Event>)
    ensures Measurements(a + b) == Measurements(a) + Measurements(b)
  {
    if a == [] {
      assert a + b == b;
    } else {
      assert (a + b)[1..] == a[1..] + b;
      MeasurementsAppend(a[1..], b);
    }
  }

  /** Footprints of a concatenation are the concatenation of the footprints. */
  lemma FootprintsAppend(a: seq<Measurement>, b: seq<Measurement>)
    ensures Footprints(a + b) == Footprints(a) + Footprints(b)
  {
  }

  /** One measurement per `Value` event: the filter keeps exactly the values. */
  lemma {:induction false} MeasurementsCount(events: seq<Event>)
    ensures |Measurements(events)| == ValueCount(events)
  {
    if events != [] {
      var init, last := events[..|events| - 1], events[|events| - 1];
      assert events == init + [last];
      MeasurementsCount(init);
      MeasurementsAppend(init, [last]);
      assert Measurements([last]) == (if last.Value? then [last.m] else []) by {
        assert [last][1..] == [];
      }
      var before := set j | 0 <= j < |init| && init[j].Value?;
      var all := set j | 0 <= j < |events| && events[j].Value?;
      assert |init| !in before;
      if last.Value? {
        assert all == before + {|init|};
      } else {
        assert all == before;
      }
    }
  }

  /** The recursion of `Sizes` computes exactly the specified analysis. */
  lemma {:induction false} SizesMeetsSpecification(events: seq<Event>)
    ensures Sizes(events) == Specified(events)
  {
    if events != [] && !IsStop(events[0]) {
      var rest := events[1..];
      SizesMeetsSpecification(rest);
      var k := StopAt(rest);
      assert StopAt(events) == k + 1;
      assert events[..k + 1] == [events[0]] + rest[..k];
      MeasurementsAppend([events[0]], rest[..k]);
      assert [events[0]][1..] == [];
      if events[0].Value? {
        FootprintsAppend([events[0].m], Measurements(rest[..k]));
      }
    }
  }

  /** The sizes are recorded in stream order, one per `Value` event before the
      first stop: the k-th is header plus body length of the k-th such value,
      plus its annotations length when it has annotations (nothing otherwise). */
  lemma RecordedSizes(events: seq<Event>)
    requires Sizes(events).Success?
    ensures var sizes, ms := Sizes(events).value, Measurements(events[..StopAt(events)]);
      |sizes| == |ms| == ValueCount(events[..StopAt(events)]) &&
      forall k :: 0 <= k < |sizes| ==>
        sizes[k] == ms[k].header + ms[k].value
                    + (if ms[k].annotations.Some? then ms[k].annotations.value else 0) &&
        sizes[k] >= ms[k].header + ms[k].value
  {
    SizesMeetsSpecification(events);
    MeasurementsCount(events[..StopAt(events)]);
  }

  /** A value at the head of the stream records header plus body length, plus
      its annotations length when it has annotations, ahead of the sizes of the
      rest of the stream. */
  lemma ValueSizeRule(m: Measurement, after: seq<Event>)
    ensures Sizes([Value(m)] + after)
         == Prepend([m.header + m.value + (if m.annotations.Some? then m.annotations.value else 0)], Sizes(after))
  {
    assert ([Value(m)] + after)[1..] == after;
  }

  /** A value with a zero-length annotations wrapper is recorded exactly like the
      same value without annotations, wherever it occurs in the stream. */
  lemma {:induction false} ZeroAnnotationsLikeAbsent(before: seq<Event>, header: nat, value: nat, after: seq<Event>)
    ensures Sizes(before + [Value(Measurement(header, Some(0), value))] + after)
         == Sizes(before + [Value(Measurement(header, None, value))] + after)
  {
    var zero, none := Value(Measurement(header, Some(0), value)), Value(Measurement(header, None, value));
    if before == [] {
      assert before + [zero] + after == [zero] + after;
      assert before + [none] + after == [none] + after;
      assert ([zero] + after)[1..] == after;
      assert ([none] + after)[1..] == after;
    } else {
      assert (before + [zero] + after)[1..] == before[1..] + [zero] + after;
      assert (before + [none] + after)[1..] == before[1..] + [none] + after;
      ZeroAnnotationsLikeAbsent(before[1..], header, value, after);
    }
  }

  /** When the first stopping event is `Nothing`, no event after it contributes
      a size or an error. */
  lemma StopsAtFirstNothing(before: seq<Event>, after: seq<Event>)
    requires NoStop(before)
    ensures Sizes(before + [Nothing] + after) == Success(Footprints(Measurements(before)))
  {
    var events := before + [Nothing] + after;
    StopAtFirstStop(before, Nothing, after);
    SizesMeetsSpecification(events);
    assert events[..|before|] == before;
  }

  /** When the first stopping event is a decoding error, it aborts the analysis
      with that error: no sizes survive, whatever follows it. */
  lemma ErrorAborts(before: seq<Event>, message: string, after: seq<Event>)
    requires NoStop(before)
    ensures Sizes(before + [DecodeError(message)] + after) == Failure(message)
  {
    var events := before + [DecodeError(message)] + after;
    StopAtFirstStop(before, DecodeError(message), after);
    SizesMeetsSpecification(events);
  }

  /** The first stopping event of `before + [stop] + after` is `stop` when `before` has none. */
  lemma {:induction false} StopAtFirstStop(before: seq<Event>, stop: Event, after: seq<Event>)
    requires NoStop(before) && IsStop(stop)
    ensures StopAt(before + [stop] + after) == |before|
    ensures (before + [stop] + after)[|before|] == stop
  {
    var events := before + [stop] + after;
    if before != [] {
      assert events[1..] == before[1..] + [stop] + after;
      StopAtFirstStop(before[1..], stop, after);
    }
  }

  /** A system item other than a value or the end leaves the sizes unchanged, wherever it occurs. */
  lemma {:induction false} OtherItemIgnored(before: seq<Event>, after: seq<Event>)
    ensures Sizes(before + [OtherItem] + after) == Sizes(before + after)
  {
    if before == [] {
      assert before + [OtherItem] + after == [OtherItem] + after;
      assert before + after == after;
      assert ([OtherItem] + after)[1..] == after;
    } else {
      assert (before + [OtherItem] + after)[1..] == before[1..] + [OtherItem] + after;
      assert (before + after)[1..] == before[1..] + after;
      OtherItemIgnored(before[1..], after);
    }
  }

  /** Each `Value` event before the first stop appends exactly its footprint, after
      the sizes of the events before it and ahead of those after it. */
  lemma {:induction false} ValueAppendsInOrder(before: seq<Event>, m: Measurement, after: seq<Event>)
    requires NoStop(before)
    ensures Sizes(before + [Value(m)] + after)
         == Prepend(Footprints(Measurements(before)) + [Footprint(m)], Sizes(after))
  {
    if before == [] {
      assert before + [Value(m)] + after == [Value(m)] + after;
      assert ([Value(m)] + after)[1..] == after;
      assert Measurements(before) == [];
      assert Footprints([]) == [];
      assert Footprints(Measurements(before)) + [Footprint(m)] == [Footprint(m)];
    } else {
      var events := before + [Value(m)] + after;
      assert events[1..] == before[1..] + [Value(m)] + after;
      ValueAppendsInOrder(before[1..], m, after);
      MeasurementsAppend([before[0]], before[1..]);
      assert [before[0]] + before[1..] == before;
      assert [before[0]][1..] == [];
      if before[0].Value? {
        FootprintsAppend([before[0].m], Measurements(before[1..]));
        match Sizes(after)
        case Success(rest) =>
          var head := [Footprint(before[0].m)];
          var mid := Footprints(Measurements(before[1..])) + [Footprint(m)];
          assert head + (mid + rest) == (head + Footprints(Measurements(before[1..]))) + [Footprint(m)] + rest;
        case Failure(_) =>
      }
    }
  }

  /** A stream whose first item is `Nothing` yields no sizes. */
  lemma NothingFirstYieldsEmpty(after: seq<Event>)
    ensures Sizes([Nothing] + after) == Success([])
  {
  }

  /** Running out of events is the same as reading `Nothing`, so a finite event
      sequence stands for a stream that ends. */
  lemma EndOfInputIsNothing(events: seq<Event>)
    ensures Sizes(events + [Nothing]) == Sizes(events)
  {
    var k := StopAt(events);
    if k < |events| {
      assert events == events[..k] + [events[k]] + events[k + 1..];
      assert events + [Nothing] == events[..k] + [events[k]] + (events[k + 1..] + [Nothing]);
      if events[k].Nothing? {
        StopsAtFirstNothing(events[..k], events[k + 1..]);
        StopsAtFirstNothing(events[..k], events[k + 1..] + [Nothing]);
      } else {
        ErrorAborts(events[..k], events[k].message, events[k + 1..]);
        ErrorAborts(events[..k], events[k].message, events[k + 1..] + [Nothing]);
      }
    } else {
      assert events[..k] == events;
      assert events + [Nothing] == events + [Nothing] + [];
      StopsAtFirstNothing(events, []);
      SizesMeetsSpecification(events);
    }
  }

  /** `size_analyze`: pull items from the reader until it yields `Nothing`,
      pushing the footprint of every `Value` item onto a growing vector. A reader
      error aborts the loop, and no vector reaches the histogram. */
  method SizeAnalyze(events: seq<Event>) returns (r: Analysis)
    ensures r == Sizes(events)
  {
    var vec: seq<nat> := [];
    var i: nat := 0;
    assert events[i..] == events;
    assert Prepend([], Sizes(events)) == Sizes(events) by {
      if Sizes(events).Success? {
        assert [] + Sizes(events).value == Sizes(events).value;
      }
    }
    while true
      invariant i <= |events|
      invariant Sizes(events) == Prepend(vec, Sizes(events[i..]))
      decreases |events| - i
    {
      var item := Next(events, i);
      if item.DecodeError? {
        assert events[i..] == [item] + events[i + 1..];
        assert Sizes(events[i..]) == Failure(item.message);
        return Failure(item.message);
      }
      match item {
        case Value(m) =>
          var size := 0;
          if m.annotations != None {
            size := m.annotations.value + m.header + m.value;
          } else {
            size := m.header + m.value;
          }
          assert events[i..] == [item] + events[i + 1..];
          PrependTwice(vec, [size], Sizes(events[i + 1..]));
          vec := vec + [size];
        case Nothing =>
          break;
        case _ =>
          assert events[i..] == [item] + events[i + 1..];
      }
      i := i + 1;
    }
    assert Sizes(events[i..]) == Success([]) by {
      if i < |events| {
        assert events[i..] == [Nothing] + events[i + 1..];
      }
    }
    assert vec + [] == vec;
    r := Success(vec);
  }
}
