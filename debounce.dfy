/** The autosave debounce of the book view as a discrete state machine. The
    view keeps ONE timer slot for all pages: every content change clears
    whatever save is scheduled, for any page, and schedules its own; when the
    timer fires, the one scheduled save is sent. Wall-clock time is replaced
    by the `Fire` event, which happens only to the save still in the slot. */
module Debounce {
  import opened Optional

  /** A scheduled save: the page it is for and the full text to send. */
  datatype Edit = Edit(pageId: string, content: string)

  datatype Event = Change(edit: Edit) | Fire

  /** The slot after an event, and the save the event sends, if any. */
  datatype Step = Step(slot: Option<Edit>, sent: Option<Edit>)

  /** A change replaces the slot and sends nothing; an expiry empties the
      slot and sends what it held. */
  function Next(slot: Option<Edit>, e: Event): (r: Step)
    ensures r.sent.Some? ==> e.Fire? && r.sent == slot
    ensures e.Fire? ==> r == Step(None, slot)
    ensures e.Change? ==> r == Step(Some(e.edit), None)
  {
    match e
    case Change(edit) => Step(Some(edit), None)
    case Fire => Step(None, slot)
  }

  /** The slot after a run of events, and the saves sent, in order. */
  datatype Trace = Trace(slot: Option<Edit>, sent: seq<Edit>)

  function Run(slot: Option<Edit>, events: seq<Event>): (r: Trace)
    ensures |r.sent| <= |events|
    ensures r.slot.Some? ==> r.slot == slot || Change(r.slot.value) in events
    ensures events != [] && events[|events| - 1] == Fire ==> r.slot == None
    decreases |events|
  {
    if events == [] then Trace(slot, [])
    else
      var step := Next(slot, events[0]);
      var rest := Run(step.slot, events[1..]);
      Trace(rest.slot, (if step.sent.Some? then [step.sent.value] else []) + rest.sent)
  }

  function Changes(edits: seq<Edit>): (r: seq<Event>)
    ensures |r| == |edits|
    ensures forall i :: 0 <= i < |edits| ==> r[i] == Change(edits[i])
  {
    seq(|edits|, i requires 0 <= i < |edits| => Change(edits[i]))
  }

  /** Each change followed by a quiet period long enough for the timer. */
  function Spaced(edits: seq<Edit>): seq<Event>
  {
    if edits == [] then [] else [Change(edits[0]), Fire] + Spaced(edits[1..])
  }

  function FireCount(events: seq<Event>): nat
  {
    if events == [] then 0 else (if events[0].Fire? then 1 else 0) + FireCount(events[1..])
  }

  /** Running two stretches of events one after the other. */
  lemma {:induction false} RunConcat(slot: Option<Edit>, a: seq<Event>, b: seq<Event>)
    ensures Run(slot, a + b).slot == Run(Run(slot, a).slot, b).slot
    ensures Run(slot, a + b).sent == Run(slot, a).sent + Run(Run(slot, a).slot, b).sent
    decreases |a|
  {
    if a == [] {
      assert a + b == b;
    } else {
      assert (a + b)[0] == a[0];
      assert (a + b)[1..] == a[1..] + b;
      RunConcat(Next(slot, a[0]).slot, a[1..], b);
    }
  }

  /** A burst of changes sends nothing; the slot holds the last of them,
      whatever was scheduled before and whichever pages they are for. */
  lemma {:induction false} BurstKeepsLast(slot: Option<Edit>, edits: seq<Edit>)
    requires edits != []
    ensures Run(slot, Changes(edits)) == Trace(Some(edits[|edits| - 1]), [])
    decreases |edits|
  {
    var evs := Changes(edits);
    if |edits| > 1 {
      assert evs[1..] == Changes(edits[1..]);
      BurstKeepsLast(Some(edits[0]), edits[1..]);
    } else {
      assert evs[1..] == [];
    }
  }

  /** Changes arriving faster than the delay, then one timer expiry: exactly
      one save is sent, carrying the last change. The earlier ones are never
      sent, even when they were for another page. */
  lemma BurstSendsLast(slot: Option<Edit>, edits: seq<Edit>)
    requires edits != []
    ensures Run(slot, Changes(edits) + [Fire]) == Trace(None, [edits[|edits| - 1]])
  {
    BurstKeepsLast(slot, edits);
    RunConcat(slot, Changes(edits), [Fire]);
  }

  /** Changes spaced further apart than the delay: one save per change, each
      with its own content, in order. */
  lemma {:induction false} SpacedSendsEach(edits: seq<Edit>)
    ensures Run(None, Spaced(edits)) == Trace(None, edits)
  {
    if edits != [] {
      var evs := Spaced(edits);
      assert evs == [Change(edits[0]), Fire] + Spaced(edits[1..]);
      RunConcat(None, [Change(edits[0]), Fire], Spaced(edits[1..]));
      assert [Change(edits[0]), Fire][1..] == [Fire];
      SpacedSendsEach(edits[1..]);
      assert edits == [edits[0]] + edits[1..];
    }
  }

  /** Each expiry sends at most one save; changes send none. */
  lemma {:induction false} AtMostOneSendPerFire(slot: Option<Edit>, events: seq<Event>)
    ensures |Run(slot, events).sent| <= FireCount(events)
    decreases |events|
  {
    if events != [] {
      AtMostOneSendPerFire(Next(slot, events[0]).slot, events[1..]);
    }
  }

  /** Nothing is sent that was not scheduled: every save sent is the one
      pending at the start or one of the changes. */
  lemma {:induction false} SentWasScheduled(slot: Option<Edit>, events: seq<Event>)
    ensures forall e :: e in Run(slot, events).sent ==> Some(e) == slot || Change(e) in events
    decreases |events|
  {
    if events != [] {
      var step := Next(slot, events[0]);
      SentWasScheduled(step.slot, events[1..]);
      forall e | e in Run(slot, events).sent ensures Some(e) == slot || Change(e) in events {
        if e !in Run(step.slot, events[1..]).sent {
          assert step.sent == Some(e);
        } else if Some(e) == step.slot {
          assert events[0] == Change(e) || Some(e) == slot;
        } else {
          assert Change(e) in events[1..];
        }
      }
    }
  }
}
