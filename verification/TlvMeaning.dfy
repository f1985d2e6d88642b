/** What success and failure of the TLV engine mean for its handlers, item by item: which callbacks
    answered what, on which output, with which flags. */
module TlvMeaning {
  import opened Basics
  import opened Tlv

  // ---------------------------------------------------------------- one item

  /** The handler of a tag is the first one with that tag. */
  ghost predicate HandlerFor<T>(c: Config<T>, tag: nat, h: nat)
  {
    h < |c.handlers| && c.handlers[h].tag == tag && forall j :: 0 <= j < h ==> c.handlers[j].tag != tag
  }

  /** A callback, if there is one, answers true and turns the output `before` into `after`. */
  ghost predicate Answers<T>(f: Option<Callback<T>>, it: Item, flags: Flags, before: T, after: T)
  {
    if f.None? then after == before else f.value(it, flags, before) == (true, after)
  }

  ghost predicate Refuses<T>(f: Option<Callback<T>>, it: Item, flags: Flags, before: T)
  {
    f.Some? && !f.value(it, flags, before).0
  }

  /** How an item was handled: by which handler, the output after the common callback, and the
      output after the handler's own. */
  datatype Handling<T> = Handling(h: nat, mid: T, out: T)

  /** The item repeats a unique tag. */
  ghost predicate Repeats<T>(c: Config<T>, it: Item, flags: Flags, h: nat)
    requires h < |c.handlers|
  {
    c.handlers[h].isUnique && c.flagOf(it.tag) <= flags
  }

  ghost predicate Handled<T>(c: Config<T>, it: Item, flags: Flags, before: T, st: Handling<T>)
  {
    && HandlerFor(c, it.tag, st.h) && !Repeats(c, it, flags, st.h)
    && Answers(c.common, it, flags, before, st.mid)
    && Answers(c.handlers[st.h].func, it, flags, st.mid, st.out)
  }

  datatype Reason = Malformed | Unknown | Repeated | CommonRefused | OwnRefused

  /** The item fails for that reason. */
  ghost predicate Fails<T>(c: Config<T>, it: Item, flags: Flags, before: T, reason: Reason)
  {
    match reason
    case Malformed => false
    case Unknown => forall h: nat :: !HandlerFor(c, it.tag, h)
    case Repeated => exists h: nat :: HandlerFor(c, it.tag, h) && Repeats(c, it, flags, h)
    case CommonRefused =>
      exists h: nat :: HandlerFor(c, it.tag, h) && !Repeats(c, it, flags, h) && Refuses(c.common, it, flags, before)
    case OwnRefused =>
      var mid := if c.common.None? then before else c.common.value(it, flags, before).1;
      Answers(c.common, it, flags, before, mid) &&
      exists h: nat :: HandlerFor(c, it.tag, h) && !Repeats(c, it, flags, h) && Refuses(c.handlers[h].func, it, flags, mid)
  }

  lemma HandlerIsFound<T>(c: Config<T>, tag: nat, h: nat)
    ensures HandlerFor(c, tag, h) <==> h == Find(c.handlers, tag) < |c.handlers|
  {
  }

  /** The engine takes an item exactly when it can be handled, and then as said. */
  lemma TakenIffHandled<T>(c: Config<T>, it: Item, s: State<T>) returns (st: Handling<T>, reason: Reason)
    ensures var v := Apply(c, it, s);
            if v.Accepted? then
              Handled(c, it, s.flags, s.out, st) && v.state == State(st.out, s.flags + c.flagOf(it.tag), s.calls + [it])
            else Fails(c, it, s.flags, s.out, reason)
  {
    var h := Find(c.handlers, it.tag);
    HandlerIsFound(c, it.tag, h);
    st, reason := Handling(h, s.out, s.out), Unknown;
    if h == |c.handlers| {
      forall k: nat ensures !HandlerFor(c, it.tag, k) { HandlerIsFound(c, it.tag, k); }
    } else if Repeats(c, it, s.flags, h) {
      reason := Repeated;
    } else {
      var r1 := Call(c.common, it, s.flags, s.out);
      if !r1.0 {
        reason := CommonRefused;
      } else {
        assert Answers(c.common, it, s.flags, s.out, r1.1);
        var r2 := Call(c.handlers[h].func, it, s.flags, r1.1);
        if !r2.0 {
          assert Refuses(c.handlers[h].func, it, s.flags, r1.1);
          reason := OwnRefused;
        } else {
          st := Handling(h, r1.1, r2.1);
        }
      }
    }
  }

  lemma HandledIsTaken<T>(c: Config<T>, it: Item, s: State<T>, st: Handling<T>)
    requires Handled(c, it, s.flags, s.out, st)
    ensures Apply(c, it, s) == Accepted(State(st.out, s.flags + c.flagOf(it.tag), s.calls + [it]))
  {
    HandlerIsFound(c, it.tag, st.h);
  }

  lemma FailingIsRefused<T>(c: Config<T>, it: Item, s: State<T>, reason: Reason)
    requires Fails(c, it, s.flags, s.out, reason)
    ensures Apply(c, it, s).Rejected?
  {
    var h := Find(c.handlers, it.tag);
    HandlerIsFound(c, it.tag, h);
    forall k: nat ensures HandlerFor(c, it.tag, k) ==> k == h { HandlerIsFound(c, it.tag, k); }
    if reason.Repeated? {
      var k: nat :| HandlerFor(c, it.tag, k) && Repeats(c, it, s.flags, k);
      assert k == h;
    } else if reason.CommonRefused? {
      var k: nat :| HandlerFor(c, it.tag, k) && !Repeats(c, it, s.flags, k) && Refuses(c.common, it, s.flags, s.out);
    } else if reason.OwnRefused? {
      var mid := if c.common.None? then s.out else c.common.value(it, s.flags, s.out).1;
      var k: nat :| HandlerFor(c, it.tag, k) && !Repeats(c, it, s.flags, k) && Refuses(c.handlers[k].func, it, s.flags, mid);
      assert k == h;
    }
  }

  // ---------------------------------------------------------------- a sequence of items

  /** The flags of the tags of these items. */
  function Received<T>(c: Config<T>, items: seq<Item>): Flags
  {
    if items == [] then {} else Received(c, items[..|items| - 1]) + c.flagOf(items[|items| - 1].tag)
  }

  function OutOf<T>(out: T, steps: seq<Handling<T>>): T
  {
    if steps == [] then out else steps[|steps| - 1].out
  }

  /** Each item is handled, in order: on the output that the one before left, and with the flags of
      the items before it. */
  ghost predicate AllHandled<T>(c: Config<T>, items: seq<Item>, out: T, steps: seq<Handling<T>>)
  {
    |steps| == |items| &&
    forall i {:trigger steps[i]} :: 0 <= i < |items| ==> Handled(c, items[i], Received(c, items[..i]), OutOf(out, steps[..i]), steps[i])
  }

  function StateAfter<T>(c: Config<T>, items: seq<Item>, out: T, steps: seq<Handling<T>>): State<T>
  {
    State(OutOf(out, steps), Received(c, items), items)
  }

  lemma AllHandledMore<T>(c: Config<T>, items: seq<Item>, out: T, steps: seq<Handling<T>>, it: Item, st: Handling<T>)
    requires AllHandled(c, items, out, steps) && Handled(c, it, Received(c, items), OutOf(out, steps), st)
    ensures AllHandled(c, items + [it], out, steps + [st])
    ensures Received(c, items + [it]) == Received(c, items) + c.flagOf(it.tag)
  {
    var items', steps' := items + [it], steps + [st];
    assert items'[..|items|] == items && steps'[..|steps|] == steps;
    forall i | 0 <= i < |items'| ensures Handled(c, items'[i], Received(c, items'[..i]), OutOf(out, steps'[..i]), steps'[i]) {
      if i < |items| {
        assert items'[..i] == items[..i] && steps'[..i] == steps[..i] && steps'[i] == steps[i];
      }
    }
  }

  lemma AllHandledLess<T>(c: Config<T>, items: seq<Item>, out: T, steps: seq<Handling<T>>)
    requires AllHandled(c, items, out, steps) && items != []
    ensures var n := |items| - 1;
            && AllHandled(c, items[..n], out, steps[..n])
            && Handled(c, items[n], Received(c, items[..n]), OutOf(out, steps[..n]), steps[n])
  {
    var n := |items| - 1;
    forall i | 0 <= i < n
      ensures Handled(c, items[..n][i], Received(c, items[..n][..i]), OutOf(out, steps[..n][..i]), steps[..n][i])
    {
      assert items[..n][..i] == items[..i] && steps[..n][..i] == steps[..i];
      assert Handled(c, items[i], Received(c, items[..i]), OutOf(out, steps[..i]), steps[i]);
    }
    assert Handled(c, items[n], Received(c, items[..n]), OutOf(out, steps[..n]), steps[n]);
  }

  // ---------------------------------------------------------------- a payload

  /** The items are at the front of the payload and all handled. */
  ghost predicate Reached<T>(good: Grammar, c: Config<T>, p: Bytes, out: T, items: seq<Item>, steps: seq<Handling<T>>)
  {
    && AllGood(good, items) && |Raw(items)| <= |p| && Raw(items) == p[..|Raw(items)|]
    && AllHandled(c, items, out, steps)
  }

  /** Behind them there is no item, or one that fails for that reason. */
  ghost predicate StopsThere<T>(good: Grammar, c: Config<T>, p: Bytes, out: T, items: seq<Item>, steps: seq<Handling<T>>, reason: Reason)
  {
    var o := |Raw(items)|;
    o < |p| &&
    if reason.Malformed? then forall it :: good(it) ==> !StandsAt(it, p, o)
    else exists it :: good(it) && StandsAt(it, p, o) && Fails(c, it, Received(c, items), OutOf(out, steps), reason)
  }

  lemma {:induction false} RawMore(items: seq<Item>, it: Item)
    ensures Raw(items + [it]) == Raw(items) + it.raw
  {
    if items == [] {
      assert [it][1..] == [] && Raw([it]) == it.raw + [];
      assert [] + [it] == [it];
    } else {
      RawMore(items[1..], it);
      assert (items + [it])[1..] == items[1..] + [it];
    }
  }

  lemma PrefixMore(p: Bytes, a: nat, b: nat)
    requires a <= b <= |p|
    ensures p[..b] == p[..a] + p[a..b]
  {
  }

  /** From any point on, the engine ends with all items handled or at one that stops it. */
  lemma {:induction false} Goes<T>(read: Reader, good: Grammar, c: Config<T>, p: Bytes, out: T, items: seq<Item>, steps: seq<Handling<T>>)
    returns (items': seq<Item>, steps': seq<Handling<T>>, reason: Reason)
    requires Reads(read, good, p) && Reached(good, c, p, out, items, steps)
    ensures Reached(good, c, p, out, items', steps')
    ensures var v := Run(read, c, p, |Raw(items)|, StateAfter(c, items, out, steps));
            if v.Accepted? then Raw(items') == p && v.state == StateAfter(c, items', out, steps')
            else StopsThere(good, c, p, out, items', steps', reason)
    decreases |p| - |Raw(items)|
  {
    var o, s := |Raw(items)|, StateAfter(c, items, out, steps);
    items', steps', reason := items, steps, Malformed;
    if o == |p| {
      assert p[..o] == p;
    } else if read(p, o).Some? {
      var Parsed(it, next) := read(p, o).value;
      var st;
      st, reason := TakenIffHandled(c, it, s);
      RunHandles(read, c, p, o, s, it, next);
      if Apply(c, it, s).Accepted? {
        ReachedMore(good, c, p, out, items, steps, it, st, next);
        items', steps', reason := Goes(read, good, c, p, out, items + [it], steps + [st]);
      } else {
        assert StandsAt(it, p, o);
      }
    }
  }

  lemma ReachedMore<T>(good: Grammar, c: Config<T>, p: Bytes, out: T, items: seq<Item>, steps: seq<Handling<T>>, it: Item, st: Handling<T>, next: nat)
    requires Reached(good, c, p, out, items, steps) && good(it) && |Raw(items)| < next <= |p| && it.raw == p[|Raw(items)|..next]
    requires Handled(c, it, Received(c, items), OutOf(out, steps), st)
    ensures Reached(good, c, p, out, items + [it], steps + [st]) && |Raw(items + [it])| == next
    ensures StateAfter(c, items + [it], out, steps + [st]) ==
            State(st.out, Received(c, items) + c.flagOf(it.tag), items + [it])
  {
    AllHandledMore(c, items, out, steps, it, st);
    RawMore(items, it);
    PrefixMore(p, |Raw(items)|, next);
  }

  /** And the other way round: the engine gets as far as the items can be handled. */
  lemma {:induction false} GetsThere<T>(read: Reader, good: Grammar, c: Config<T>, p: Bytes, out: T, items: seq<Item>, steps: seq<Handling<T>>)
    requires Reads(read, good, p) && Reached(good, c, p, out, items, steps)
    ensures Run(read, c, p, 0, State(out, {}, [])) == Run(read, c, p, |Raw(items)|, StateAfter(c, items, out, steps))
    decreases |items|
  {
    if items != [] {
      var n := |items| - 1;
      var front, it, sts := items[..n], items[n], steps[..n];
      assert items == front + [it];
      AllHandledLess(c, items, out, steps);
      RawMore(front, it);
      var o := |Raw(front)|;
      PrefixMore(p, o, o + |it.raw|);
      assert Raw(front) == p[..o] && it.raw == p[o..o + |it.raw|];
      assert StandsAt(it, p, o);
      GetsThere(read, good, c, p, out, front, sts);
      HandledIsTaken(c, it, StateAfter(c, front, out, sts), steps[n]);
      RunHandles(read, c, p, o, StateAfter(c, front, out, sts), it, o + |it.raw|);
    }
  }

  /**
   * Success: the payload is a sequence of triplets, and each was taken by the common callback and
   * by the callback of the first handler with its tag, one after the other on the output; the
   * result is the last output, and the flags are those of all tags.
   */
  lemma AcceptedMeans<T>(c: Config<T>, p: Bytes, out: T, s: State<T>)
    ensures Outcome(c, p, out) == Accepted(s) <==>
            exists items, steps :: Reached(WellFormed, c, p, out, items, steps) && Raw(items) == p && s == StateAfter(c, items, out, steps)
  {
    EngineReadsGrammar(p);
    assert Reached(WellFormed, c, p, out, [], []);
    var items, steps, reason := Goes(ReadTriplet, WellFormed, c, p, out, [], []);
    forall items, steps | Reached(WellFormed, c, p, out, items, steps) && Raw(items) == p
      ensures Outcome(c, p, out) == Accepted(StateAfter(c, items, out, steps))
    {
      GetsThere(ReadTriplet, WellFormed, c, p, out, items, steps);
    }
  }

  /**
   * Failure: some first items were handled as above, and what follows is not a triplet, or is one
   * whose tag is unknown, repeats a unique one, or is refused by the common or by its own callback.
   */
  lemma RejectedMeans<T>(c: Config<T>, p: Bytes, out: T)
    ensures Outcome(c, p, out).Rejected? <==>
            exists items, steps, reason :: Reached(WellFormed, c, p, out, items, steps) && StopsThere(WellFormed, c, p, out, items, steps, reason)
  {
    EngineReadsGrammar(p);
    assert Reached(WellFormed, c, p, out, [], []);
    var items, steps, reason := Goes(ReadTriplet, WellFormed, c, p, out, [], []);
    forall items, steps, reason | Reached(WellFormed, c, p, out, items, steps) && StopsThere(WellFormed, c, p, out, items, steps, reason)
      ensures Outcome(c, p, out).Rejected?
    {
      GetsThere(ReadTriplet, WellFormed, c, p, out, items, steps);
      Stopped(ReadTriplet, WellFormed, c, p, out, items, steps, reason);
    }
  }

  lemma Stopped<T>(read: Reader, good: Grammar, c: Config<T>, p: Bytes, out: T, items: seq<Item>, steps: seq<Handling<T>>, reason: Reason)
    requires Reads(read, good, p) && |Raw(items)| <= |p| && StopsThere(good, c, p, out, items, steps, reason)
    ensures Run(read, c, p, |Raw(items)|, StateAfter(c, items, out, steps)).Rejected?
  {
    var o, s := |Raw(items)|, StateAfter(c, items, out, steps);
    if read(p, o).Some? {
      var Parsed(it, next) := read(p, o).value;
      assert StandsAt(it, p, o);
      RunHandles(read, c, p, o, s, it, next);
      if !reason.Malformed? {
        var that :| good(that) && StandsAt(that, p, o) && Fails(c, that, Received(c, items), OutOf(out, steps), reason);
        assert that == it;
        FailingIsRefused(c, it, s, reason);
      }
    }
  }
}
