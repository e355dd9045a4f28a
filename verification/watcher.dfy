/**
 The configuration watcher's debounce loop: file events arrive in order;
 an event counts only when the file name of its first path is a
 configuration file, and a counted event notifies the front end only when
 more than 100 ms have passed since the last notification (or since the
 worker started). Absorbed events do not move the window.

 The desktop app (`apps/main`) counts `config.json` and `config.toml`; the
 legacy app (`src-tauri`) counts `config.json` only. Time is the worker's
 clock in milliseconds when it handles the event; the watcher registration,
 the channel and the thread are not part of this model.
 */
module Watcher {
  import opened Wrappers

  datatype Variant = Desktop | Legacy

  /**
   A file event as the loop sees it: the time it is handled and, for each
   of its paths, the path's file name (`None` for a path without one).
   */
  datatype Event = Event(at: nat, names: seq<Option<string>>)

  const DebounceMs: nat := 100

  /** `Instant::duration_since`, which saturates at zero. */
  function Elapsed(now: nat, since: nat): nat {
    if now >= since then now - since else 0
  }

  /** A configuration file name for the variant. */
  predicate IsConfigName(v: Variant, name: string) {
    name == "config.json" || (v == Desktop && name == "config.toml")
  }

  /** Only the first path's file name decides whether the event counts. */
  predicate Counts(v: Variant, e: Event) {
    |e.names| > 0 && e.names[0].Some? && IsConfigName(v, e.names[0].value)
  }

  /** A counted event fires when strictly more than 100 ms have passed since `last`. */
  predicate Fires(v: Variant, last: nat, e: Event) {
    Counts(v, e) && Elapsed(e.at, last) > DebounceMs
  }

  /** `last_event_time` after the events. */
  function Last(v: Variant, last: nat, events: seq<Event>): nat
    decreases |events|
  {
    if |events| == 0 then last
    else Last(v, if Fires(v, last, events[0]) then events[0].at else last, events[1..])
  }

  /**
   The loop from `last`: the times at which it notifies the front end. Each
   notification is more than 100 ms after the previous one (the first after
   `last`).
   */
  function Run(v: Variant, last: nat, events: seq<Event>): (emits: seq<nat>)
    ensures |emits| <= |events|
    ensures |emits| > 0 ==> emits[0] > last + DebounceMs
    ensures forall k :: 0 < k < |emits| ==> emits[k] > emits[k - 1] + DebounceMs
    decreases |events|
  {
    if |events| == 0 then []
    else if Fires(v, last, events[0]) then
      [events[0].at] + Run(v, events[0].at, events[1..])
    else
      Run(v, last, events[1..])
  }

  /** Every notification is at the time of a counted event. */
  lemma {:induction false} EmitsAreCounted(v: Variant, last: nat, events: seq<Event>)
    ensures forall t :: t in Run(v, last, events) ==> exists e :: e in events && Counts(v, e) && e.at == t
    decreases |events|
  {
    if |events| > 0 {
      assert forall e :: e in events[1..] ==> e in events;
      EmitsAreCounted(v, events[0].at, events[1..]);
      EmitsAreCounted(v, last, events[1..]);
    }
  }

  /** The counted events, in order. */
  function Counted(v: Variant, events: seq<Event>): (r: seq<Event>)
    ensures forall e :: e in r <==> e in events && Counts(v, e)
  {
    if |events| == 0 then []
    else (if Counts(v, events[0]) then [events[0]] else []) + Counted(v, events[1..])
  }

  /** There are no more notifications than counted events. */
  lemma {:induction false} EmitsAtMostCounted(v: Variant, last: nat, events: seq<Event>)
    ensures |Run(v, last, events)| <= |Counted(v, events)|
    decreases |events|
  {
    if |events| > 0 {
      EmitsAtMostCounted(v, events[0].at, events[1..]);
      EmitsAtMostCounted(v, last, events[1..]);
    }
  }

  /** Events that do not count neither notify nor move the window. */
  lemma {:induction false} IgnoredTransparent(v: Variant, last: nat, events: seq<Event>)
    ensures Run(v, last, events) == Run(v, last, Counted(v, events))
    ensures Last(v, last, events) == Last(v, last, Counted(v, events))
    decreases |events|
  {
    if |events| > 0 {
      IgnoredTransparent(v, last, events[1..]);
      IgnoredTransparent(v, events[0].at, events[1..]);
      if Counts(v, events[0]) {
        assert ([events[0]] + Counted(v, events[1..]))[1..] == Counted(v, events[1..]);
      } else {
        assert Counted(v, events) == Counted(v, events[1..]);
      }
    }
  }

  /** Running over two batches is running over the first, then the second from where it left off. */
  lemma {:induction false} RunAppend(v: Variant, last: nat, a: seq<Event>, b: seq<Event>)
    ensures Run(v, last, a + b) == Run(v, last, a) + Run(v, Last(v, last, a), b)
    ensures Last(v, last, a + b) == Last(v, Last(v, last, a), b)
    decreases |a|
  {
    if |a| == 0 {
      assert a + b == b;
    } else {
      assert (a + b)[0] == a[0];
      assert (a + b)[1..] == a[1..] + b;
      RunAppend(v, if Fires(v, last, a[0]) then a[0].at else last, a[1..], b);
    }
  }

  /** The window moves exactly to the last notification, or stays at `last` when there is none. */
  lemma {:induction false} LastIsLastEmit(v: Variant, last: nat, events: seq<Event>)
    ensures var emits := Run(v, last, events);
      Last(v, last, events) == if |emits| == 0 then last else emits[|emits| - 1]
    decreases |events|
  {
    if |events| > 0 {
      LastIsLastEmit(v, if Fires(v, last, events[0]) then events[0].at else last, events[1..]);
    }
  }

  /** The times of the events, in order. */
  function Times(events: seq<Event>): (ts: seq<nat>)
    ensures |ts| == |events|
    ensures forall k :: 0 <= k < |events| ==> ts[k] == events[k].at
  {
    if |events| == 0 then [] else [events[0].at] + Times(events[1..])
  }

  /** The events' times are spaced more than 100 ms apart, the first more than 100 ms after `last`. */
  predicate Spaced(last: nat, events: seq<Event>) {
    && (|events| > 0 ==> events[0].at > last + DebounceMs)
    && forall k :: 0 < k < |events| ==> events[k].at > events[k - 1].at + DebounceMs
  }

  /** The events after the first are spaced from the first. */
  lemma SpacedTail(last: nat, events: seq<Event>)
    requires |events| > 0 && Spaced(last, events)
    ensures Spaced(events[0].at, events[1..])
  {
    var tail := events[1..];
    forall k | 0 < k < |tail|
      ensures tail[k].at > tail[k - 1].at + DebounceMs
    {
      assert tail[k] == events[k + 1] && tail[k - 1] == events[k];
    }
  }

  /** Counted events spaced more than 100 ms apart all notify: the debounce only absorbs bursts. */
  lemma {:induction false} SpacedAllFire(v: Variant, last: nat, events: seq<Event>)
    requires forall k :: 0 <= k < |events| ==> Counts(v, events[k])
    requires Spaced(last, events)
    ensures Run(v, last, events) == Times(events)
    decreases |events|
  {
    if |events| > 0 {
      var tail := events[1..];
      assert Fires(v, last, events[0]) by {
        assert Counts(v, events[0]);
      }
      assert forall k :: 0 <= k < |tail| ==> Counts(v, tail[k]) by {
        assert forall k :: 0 <= k < |tail| ==> tail[k] == events[k + 1];
      }
      SpacedTail(last, events);
      SpacedAllFire(v, events[0].at, tail);
    }
  }

  /** The same for any events whose counted ones are spaced: ignored events change nothing. */
  lemma SpacedCountedAllFire(v: Variant, last: nat, events: seq<Event>)
    requires Spaced(last, Counted(v, events))
    ensures Run(v, last, events) == Times(Counted(v, events))
  {
    var c := Counted(v, events);
    IgnoredTransparent(v, last, events);
    assert forall k :: 0 <= k < |c| ==> c[k] in c;
    SpacedAllFire(v, last, c);
  }

  /** Without `config.toml` events the two apps notify at the same times. */
  lemma {:induction false} VariantsAgreeWithoutToml(last: nat, events: seq<Event>)
    requires forall e :: e in events ==> !(|e.names| > 0 && e.names[0] == Some("config.toml"))
    ensures Run(Desktop, last, events) == Run(Legacy, last, events)
    decreases |events|
  {
    if |events| > 0 {
      assert events[0] in events;
      assert Counts(Desktop, events[0]) == Counts(Legacy, events[0]);
      assert forall e :: e in events[1..] ==> e in events;
      VariantsAgreeWithoutToml(if Fires(Desktop, last, events[0]) then events[0].at else last, events[1..]);
    }
  }

  /** The legacy app ignores `config.toml`; the desktop app notifies for it. */
  lemma TomlOnlyInDesktop(start: nat, at: nat)
    requires at > start + DebounceMs
    ensures Run(Desktop, start, [Event(at, [Some("config.toml")])]) == [at]
    ensures Run(Legacy, start, [Event(at, [Some("config.toml")])]) == []
  {
    assert "config.toml" != "config.json" by {
      assert "config.toml"[7] != "config.json"[7];
    }
  }

  /** Only the first path counts: a configuration file named second is ignored. */
  lemma OnlyFirstPathCounts(v: Variant, start: nat, at: nat, other: Option<string>)
    requires other.Some? ==> !IsConfigName(v, other.value)
    ensures Run(v, start, [Event(at, [other, Some("config.json")])]) == []
  {
  }

  /** An event handled at `t` whose only path is `config.json`. */
  function JsonSave(t: nat): Event {
    Event(t, [Some("config.json")])
  }

  /**
   A burst of saves: from a start at 0, events at 200, 210, 220, 230 and
   250 ms notify once, at 200, and one at 350 ms notifies again.
   */
  lemma BurstExample(v: Variant)
    ensures Run(v, 0, [JsonSave(200), JsonSave(210), JsonSave(220), JsonSave(230), JsonSave(250), JsonSave(350)])
      == [200, 350]
  {
    var tail := [JsonSave(210), JsonSave(220), JsonSave(230), JsonSave(250), JsonSave(350)];
    BurstAbsorbed(v);
    assert [JsonSave(200), JsonSave(210), JsonSave(220), JsonSave(230), JsonSave(250), JsonSave(350)]
      == [JsonSave(200)] + tail;
    assert Run(v, 0, [JsonSave(200)] + tail) == [200] + Run(v, 200, tail);
  }

  lemma BurstAbsorbed(v: Variant)
    ensures Run(v, 200, [JsonSave(210), JsonSave(220), JsonSave(230), JsonSave(250), JsonSave(350)]) == [350]
  {
    var absorbed := [JsonSave(210), JsonSave(220), JsonSave(230), JsonSave(250)];
    assert forall k :: 0 <= k < |absorbed| ==> !Fires(v, 200, absorbed[k]);
    AbsorbedSkipped(v, 200, absorbed, [JsonSave(350)]);
    assert absorbed + [JsonSave(350)] == [JsonSave(210), JsonSave(220), JsonSave(230), JsonSave(250), JsonSave(350)];
    assert Run(v, 200, [JsonSave(350)]) == [350] + Run(v, 350, []);
  }

  /** Events that do not fire leave no trace. */
  lemma {:induction false} AbsorbedSkipped(v: Variant, last: nat, absorbed: seq<Event>, rest: seq<Event>)
    requires forall k :: 0 <= k < |absorbed| ==> !Fires(v, last, absorbed[k])
    ensures Run(v, last, absorbed + rest) == Run(v, last, rest)
    decreases |absorbed|
  {
    if |absorbed| > 0 {
      assert (absorbed + rest)[1..] == absorbed[1..] + rest;
      assert forall k :: 0 <= k < |absorbed| - 1 ==> absorbed[1..][k] == absorbed[k + 1];
      AbsorbedSkipped(v, last, absorbed[1..], rest);
    } else {
      assert absorbed + rest == rest;
    }
  }
}
