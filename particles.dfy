/** The decorative particle pool: a full-page container that start-up fills
    with twenty particles. When a particle's ten-second timer fires, the
    particle, if it is still attached, is removed and one fresh particle is
    appended in its place. A particle is known here only by its identity: its
    random position and delay are presentation and are not modelled. */
module Particles {

  import opened Sequences

  /** Particles created at start-up. */
  const Count: nat := 20

  /** The container's children in document order (`live`), and the identity
      the next created particle receives (`next`): every particle ever created
      has an identity below `next`. */
  datatype Field = Field(live: seq<nat>, next: nat)

  /** Every attached particle was created before and appears once. */
  predicate Valid(f: Field)
  {
    (forall k :: 0 <= k < |f.live| ==> f.live[k] < f.next) && Distinct(f.live)
  }

  /** `createParticle`: a new particle, never seen before, is appended. */
  function Spawn(f: Field): (r: Field)
    ensures |r.live| == |f.live| + 1 && r.live[..|f.live|] == f.live
    ensures Valid(f) ==> Valid(r) && r.live[|f.live|] !in f.live
    ensures r.live[|f.live|] >= f.next && r.next > f.next
  {
    Field(f.live + [f.next], f.next + 1)
  }

  /** `n` calls of `createParticle` in a row. */
  function SpawnMany(f: Field, n: nat): (r: Field)
    ensures Valid(f) ==> Valid(r)
    ensures |r.live| == |f.live| + n
    ensures r.live[..|f.live|] == f.live
  {
    if n == 0 then f else Spawn(SpawnMany(f, n - 1))
  }

  /** The field right after `createParticles`: an empty container filled by
      `count` creations (twenty on the page). */
  function Start(count: nat): (r: Field)
    ensures Valid(r) && |r.live| == count
  {
    SpawnMany(Field([], 0), count)
  }

  /** `removeChild`: the children of `s` other than `p`, in the same order. */
  function Remove(s: seq<nat>, p: nat): (r: seq<nat>)
    ensures forall x :: x in r <==> x in s && x != p
    ensures Distinct(s) ==> Distinct(r)
    ensures Distinct(s) && p in s ==> |r| == |s| - 1
    ensures p !in s ==> r == s
  {
    if s == [] then []
    else if s[0] == p then Remove(s[1..], p)
    else
      var rest := Remove(s[1..], p);
      assert Distinct(s) ==> s[0] !in s[1..] && Distinct(s[1..]) by {
        if Distinct(s) {
          forall k | 0 <= k < |s| - 1 ensures s[1..][k] != s[0] {
            assert s[1..][k] == s[k + 1];
          }
        }
      }
      [s[0]] + rest
  }

  /** Removing a child that appears once cuts exactly that child out: the
      children before it and after it keep their order. */
  lemma {:induction false} RemoveCutsOut(s: seq<nat>, p: nat)
    requires Distinct(s) && p in s
    ensures exists k :: 0 <= k < |s| && s[k] == p && Remove(s, p) == s[..k] + s[k + 1..]
  {
    var t := s[1..];
    DistinctTail(s);
    if s[0] == p {
      assert Remove(s, p) == Remove(t, p) == t;
      assert s[..0] + s[1..] == t;
    } else {
      assert p in t;
      RemoveCutsOut(t, p);
      var k :| 0 <= k < |t| && t[k] == p && Remove(t, p) == t[..k] + t[k + 1..];
      assert Remove(s, p) == [s[0]] + Remove(t, p);
      ConsCut(s, k);
      assert s[k + 1] == p;
    }
  }

  /** The tail of a sequence without repeats has none, and lacks the head. */
  lemma DistinctTail(s: seq<nat>)
    requires Distinct(s) && |s| > 0
    ensures Distinct(s[1..]) && s[0] !in s[1..]
  {
    var t := s[1..];
    forall j | 0 <= j < |t| ensures t[j] == s[j + 1] { }
  }

  /** Cutting position `k` out of the tail and putting the head back cuts
      position `k + 1` out of the whole. */
  lemma ConsCut(s: seq<nat>, k: nat)
    requires k + 1 < |s|
    ensures [s[0]] + (s[1..][..k] + s[1..][k + 1..]) == s[..k + 1] + s[k + 2..]
  {
    assert s[1..][..k] == s[1..k + 1];
    assert s[1..][k + 1..] == s[k + 2..];
    assert [s[0]] + s[1..k + 1] == s[..k + 1];
  }

  /** The timer callback of particle `p`: only an attached particle is
      removed, and then exactly one new particle is appended. */
  function AfterExpiry(f: Field, p: nat): (r: Field)
    ensures r.next >= f.next
    ensures forall x :: x in r.live && x !in f.live ==> x >= f.next
    ensures p !in f.live ==> r == f
    ensures Valid(f) ==> Valid(r) && |r.live| == |f.live| && p !in r.live
  {
    if p in f.live then
      RemainderIsValid(f, p);
      Spawn(Field(Remove(f.live, p), f.next))
    else f
  }

  /** What is left after a removal still satisfies the invariant. */
  lemma RemainderIsValid(f: Field, p: nat)
    ensures Valid(f) ==> Valid(Field(Remove(f.live, p), f.next))
  {
    var rest := Remove(f.live, p);
    assert forall k :: 0 <= k < |rest| ==> rest[k] in f.live;
  }

  /** Expiring an attached particle keeps every other child and adds exactly
      the particle created next, which was not attached before. */
  lemma ExpiryKeepsCount(f: Field, p: nat)
    requires Valid(f)
    ensures p in f.live ==> forall x :: x in AfterExpiry(f, p).live && x != f.next <==> x in f.live && x != p
    ensures p in f.live ==> f.next in AfterExpiry(f, p).live && f.next !in f.live
  {
  }

  /** The field after a series of timer expiries, oldest first: whatever
      their order, the container keeps its size and its invariant, and no
      identity is handed out twice. */
  function Run(f: Field, expiries: seq<nat>): (r: Field)
    ensures r.next >= f.next
    ensures forall x :: x in r.live && x !in f.live ==> x >= f.next
    ensures Valid(f) ==> Valid(r) && |r.live| == |f.live|
    decreases expiries
  {
    if expiries == [] then f else Run(AfterExpiry(f, expiries[0]), expiries[1..])
  }

  /** After start-up and any series of expiries there are exactly twenty particles. */
  lemma StartThenRunHasCount(expiries: seq<nat>)
    ensures |Run(Start(Count), expiries).live| == Count
  {
  }

  /** A particle that has been created and is no longer attached never comes back. */
  lemma {:induction false} DetachedStaysDetached(f: Field, p: nat, expiries: seq<nat>)
    requires Valid(f) && p < f.next && p !in f.live
    ensures p !in Run(f, expiries).live
    decreases expiries
  {
    if expiries != [] {
      var g := AfterExpiry(f, expiries[0]);
      DetachedStaysDetached(g, p, expiries[1..]);
    }
  }

  /** The particle container, whose children the timers change in place. */
  class ParticleField {
    var live: seq<nat>
    var next: nat

    ghost function State(): Field
      reads this
    {
      Field(live, next)
    }

    /** `createParticles`: an empty container is created and twenty particles appended. */
    constructor ()
      ensures State() == Start(Count)
      ensures Valid(State()) && |live| == Count
    {
      live := [];
      next := 0;
      new;
      var i := 0;
      while i < Count
        invariant 0 <= i <= Count
        invariant State() == SpawnMany(Field([], 0), i)
      {
        var _ := CreateParticle();
        i := i + 1;
      }
    }

    /** `createParticle`: appends a new particle and returns its identity. */
    method CreateParticle() returns (p: nat)
      modifies this
      ensures State() == Spawn(old(State()))
      ensures p == old(next) && live == old(live) + [p]
    {
      p := next;
      live := live + [p];
      next := next + 1;
    }

    /** The expiry of particle `p`'s timer. */
    method Expire(p: nat)
      requires Valid(State())
      modifies this
      ensures State() == AfterExpiry(old(State()), p)
      ensures Valid(State()) && |live| == |old(live)| && p !in live
    {
      if p in live {
        live := Remove(live, p);
        var _ := CreateParticle();
      }
    }
  }
}
