/** The intersection-observer callback for the salary amounts: an amount
    that becomes visible and does not yet carry the `animated` class gets it
    and is handed to `animateNumber`. The class is never taken away, so each
    amount is counted up at most once. */
module SalaryObserver {

  import opened Sequences

  /** A `.amount` element, known by its identity. */
  type Element = nat

  /** One `IntersectionObserverEntry`: its target and `isIntersecting`. */
  datatype Entry = Entry(target: Element, isIntersecting: bool)

  /** The elements that carry the `animated` class, and the elements handed
      to `animateNumber` so far, in call order. */
  datatype Observed = Observed(animated: set<Element>, started: seq<Element>)

  /** Every element started carries `animated`, and none was started twice.
      An element may carry `animated` without having been started: the page
      markup can give it the class before the observer sees it. */
  predicate Valid(o: Observed)
  {
    (forall x :: x in o.started ==> x in o.animated) && Distinct(o.started)
  }

  /** The observer before any entry has been delivered, given the amounts
      that carry `animated` from the page markup. */
  function Initial(preset: set<Element>): (o: Observed)
    ensures Valid(o) && o.animated == preset && o.started == []
  {
    Observed(preset, [])
  }

  /** The callback's work for one entry: only an intersecting element that
      does not yet carry `animated` gets the class and is started. */
  function Step(o: Observed, e: Entry): (r: Observed)
    ensures r.animated == if e.isIntersecting then o.animated + {e.target} else o.animated
    ensures r.started == if e.isIntersecting && e.target !in o.animated
      then o.started + [e.target] else o.started
    ensures Valid(o) ==> Valid(r)
  {
    if e.isIntersecting && e.target !in o.animated then
      Observed(o.animated + {e.target}, o.started + [e.target])
    else o
  }

  /** The callback's work for a batch of entries, or for all the batches
      delivered so far laid end to end: the `animated` class is only ever
      added, and earlier calls of `animateNumber` stay as they were. */
  function Observe(o: Observed, entries: seq<Entry>): (r: Observed)
    ensures o.animated <= r.animated
    ensures |o.started| <= |r.started| && r.started[..|o.started|] == o.started
    decreases |entries|
  {
    if entries == [] then o
    else Step(Observe(o, entries[..|entries| - 1]), entries[|entries| - 1])
  }

  /** However the entries arrive, no element is handed to `animateNumber`
      twice, and every started element carries `animated`. */
  lemma {:induction false} AnimatedAtMostOnce(o: Observed, entries: seq<Entry>)
    requires Valid(o)
    ensures Valid(Observe(o, entries))
    decreases |entries|
  {
    if entries != [] {
      AnimatedAtMostOnce(o, entries[..|entries| - 1]);
    }
  }

  /** An element that already carries `animated`, from an earlier callback
      or from the page markup, is not started again. */
  lemma {:induction false} NoRestart(o: Observed, entries: seq<Entry>, x: Element)
    requires x in o.animated
    ensures forall k :: |o.started| <= k < |Observe(o, entries).started| ==>
      Observe(o, entries).started[k] != x
    decreases |entries|
  {
    if entries != [] {
      var init := entries[..|entries| - 1];
      NoRestart(o, init, x);
      var mid := Observe(o, init);
      assert x in mid.animated;
      var r := Step(mid, entries[|entries| - 1]);
      forall k | |o.started| <= k < |r.started| ensures r.started[k] != x {
        if k < |mid.started| {
          assert r.started[k] == mid.started[k];
        }
      }
    }
  }

  /** `x` was handed to `animateNumber` on the way from `o` to `r`. */
  predicate StartedSince(o: Observed, r: Observed, x: Element)
  {
    exists k :: |o.started| <= k < |r.started| && r.started[k] == x
  }

  /** The elements a batch starts are exactly those it newly gives `animated`. */
  lemma {:induction false} StartedIffNewlyAnimated(o: Observed, entries: seq<Entry>, x: Element)
    ensures StartedSince(o, Observe(o, entries), x)
      <==> x in Observe(o, entries).animated && x !in o.animated
    decreases |entries|
  {
    if entries != [] {
      var init := entries[..|entries| - 1];
      StartedIffNewlyAnimated(o, init, x);
      var mid := Observe(o, init);
      var r := Step(mid, entries[|entries| - 1]);
      if exists k :: |o.started| <= k < |r.started| && r.started[k] == x {
        var k :| |o.started| <= k < |r.started| && r.started[k] == x;
        if k < |mid.started| {
          assert mid.started[k] == x;
        }
      }
      if x in r.animated && x !in o.animated {
        if x in mid.animated {
          var k :| |o.started| <= k < |mid.started| && mid.started[k] == x;
          assert r.started[k] == x;
        } else {
          assert r.started[|mid.started|] == x;
        }
      }
    }
  }

  /** An element is animated after the entries exactly when it was before,
      or some entry for it was intersecting. */
  lemma {:induction false} AnimatedIffIntersected(o: Observed, entries: seq<Entry>, x: Element)
    ensures x in Observe(o, entries).animated <==>
      x in o.animated || exists j :: 0 <= j < |entries| && entries[j].target == x && entries[j].isIntersecting
    decreases |entries|
  {
    if entries != [] {
      var init := entries[..|entries| - 1];
      AnimatedIffIntersected(o, init, x);
      if exists j :: 0 <= j < |entries| && entries[j].target == x && entries[j].isIntersecting {
        var j :| 0 <= j < |entries| && entries[j].target == x && entries[j].isIntersecting;
        if j < |init| {
          assert init[j] == entries[j];
        }
      } else {
        forall j | 0 <= j < |init| ensures !(init[j].target == x && init[j].isIntersecting) {
          assert init[j] == entries[j];
        }
      }
    }
  }

  /** The observer, with the `animated` classes and the `animateNumber` calls it has made. */
  class AmountObserver {
    var animated: set<Element>
    var started: seq<Element>

    ghost function State(): Observed
      reads this
    {
      Observed(animated, started)
    }

    /** `observe` on every amount: no amount has been started yet, and
        those in `preset` carry `animated` from the page markup. */
    constructor (preset: set<Element>)
      ensures State() == Initial(preset) && Valid(State())
    {
      animated := preset;
      started := [];
    }

    /** The observer callback for one batch of entries. */
    method OnEntries(entries: seq<Entry>)
      requires Valid(State())
      modifies this
      ensures State() == Observe(old(State()), entries)
      ensures Valid(State()) && old(animated) <= animated
    {
      var i := 0;
      while i < |entries|
        invariant 0 <= i <= |entries|
        invariant State() == Observe(old(State()), entries[..i])
      {
        var e := entries[i];
        if e.isIntersecting && e.target !in animated {
          animated := animated + {e.target};
          started := started + [e.target];
        }
        assert entries[..i + 1][..i] == entries[..i];
        i := i + 1;
      }
      assert entries[..|entries|] == entries;
      AnimatedAtMostOnce(old(State()), entries);
    }
  }
}
