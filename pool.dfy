/** A Phaser group used as a fixed-capacity entity pool.

    The game never indexes a group directly: it asks for "the first member whose
    active flag is false, or a new member if the group is below its maximum size"
    (`group.get()` and `group.getFirst(false, true)`), and it deactivates members
    with `kill`. This module models that acquisition on the sequence of the
    members' active flags, in group order, and counts the live members. */
module Pool {

  /** The outcome of acquiring a member: the first inactive member is reused,
      a new member is appended because the group is not full, or nothing. */
  datatype Acquired = Reuse(index: nat) | Grow | Exhausted

  /** The members' active flags, in group order, read with `isActive`. */
  function Flags<T>(s: seq<T>, isActive: T -> bool): (f: seq<bool>)
    ensures |f| == |s|
    ensures forall i :: 0 <= i < |s| ==> f[i] == isActive(s[i])
  {
    seq(|s|, i requires 0 <= i < |s| => isActive(s[i]))
  }

  /** Number of active members. */
  function CountActive(flags: seq<bool>): nat
  {
    if flags == [] then 0 else (if flags[0] then 1 else 0) + CountActive(flags[1..])
  }

  /** Index of the first inactive member, or |flags| when every member is active. */
  function FirstInactive(flags: seq<bool>): (k: nat)
    ensures k <= |flags|
    ensures k < |flags| ==> !flags[k]
    ensures forall j :: 0 <= j < k ==> flags[j]
  {
    if flags == [] then 0
    else if !flags[0] then 0
    else
      var k' := FirstInactive(flags[1..]);
      assert forall j :: 1 <= j < 1 + k' ==> flags[j] == flags[1..][j - 1];
      1 + k'
  }

  /** What a group with maximum size `capacity` hands out when asked for a member. */
  function Acquire(flags: seq<bool>, capacity: nat): (a: Acquired)
    ensures a.Reuse? ==> a.index < |flags| && !flags[a.index]
    ensures a.Reuse? ==> forall j :: 0 <= j < a.index ==> flags[j]
    ensures !a.Reuse? <==> forall j :: 0 <= j < |flags| ==> flags[j]
    ensures a.Grow? <==> (forall j :: 0 <= j < |flags| ==> flags[j]) && |flags| < capacity
    ensures a.Exhausted? <==> (forall j :: 0 <= j < |flags| ==> flags[j]) && |flags| >= capacity
  {
    var k := FirstInactive(flags);
    if k < |flags| then Reuse(k)
    else if |flags| < capacity then Grow
    else Exhausted
  }

  /** The group after the acquired member has been (re)initialised to `item`. */
  function Install<T>(s: seq<T>, a: Acquired, item: T): seq<T>
    requires a.Reuse? ==> a.index < |s|
  {
    match a
    case Reuse(k) => s[k := item]
    case Grow => s + [item]
    case Exhausted => s
  }

  lemma {:induction false} CountActiveBound(flags: seq<bool>)
    ensures CountActive(flags) <= |flags|
  {
    if flags != [] {
      CountActiveBound(flags[1..]);
    }
  }

  lemma {:induction false} CountActiveAll(flags: seq<bool>)
    ensures CountActive(flags) == |flags| <==> forall j :: 0 <= j < |flags| ==> flags[j]
  {
    if flags != [] {
      CountActiveAll(flags[1..]);
      CountActiveBound(flags[1..]);
      assert forall j :: 1 <= j < |flags| ==> flags[j] == flags[1..][j - 1];
    }
  }

  lemma {:induction false} CountActiveUpdate(flags: seq<bool>, i: nat, v: bool)
    requires i < |flags|
    ensures CountActive(flags[i := v])
         == CountActive(flags) - (if flags[i] then 1 else 0) + (if v then 1 else 0)
  {
    if i == 0 {
      assert flags[i := v][1..] == flags[1..];
    } else {
      assert flags[i := v][1..] == flags[1..][i - 1 := v];
      CountActiveUpdate(flags[1..], i - 1, v);
    }
  }

  lemma {:induction false} CountActiveAppend(flags: seq<bool>, v: bool)
    ensures CountActive(flags + [v]) == CountActive(flags) + (if v then 1 else 0)
  {
    if flags == [] {
      assert [v][1..] == [];
    } else {
      assert (flags + [v])[1..] == flags[1..] + [v];
      CountActiveAppend(flags[1..], v);
    }
  }

  /** A group never holds more than `capacity` members, so acquiring one either
      fails because all `capacity` members are live, or makes exactly one more
      member live: the first inactive one, or a new one at the end. */
  lemma ExhaustedIffAllTaken(flags: seq<bool>, capacity: nat)
    requires |flags| <= capacity
    ensures Acquire(flags, capacity).Exhausted? <==> CountActive(flags) == capacity
  {
    CountActiveAll(flags);
    CountActiveBound(flags);
  }

  lemma AcquireActivatesOne(flags: seq<bool>, capacity: nat)
    requires |flags| <= capacity
    requires !Acquire(flags, capacity).Exhausted?
    ensures var after := Install(flags, Acquire(flags, capacity), true);
      && |after| <= capacity
      && CountActive(after) == CountActive(flags) + 1
      && (forall j :: 0 <= j < |flags| && after[j] != flags[j] ==> !flags[j] && after[j])
  {
    match Acquire(flags, capacity)
    case Reuse(k) => CountActiveUpdate(flags, k, true);
    case Grow => CountActiveAppend(flags, true);
  }

  /** Releasing the member just acquired gives back the previous live count. */
  lemma AcquireThenReleaseRestoresCount(flags: seq<bool>, capacity: nat)
    requires |flags| <= capacity
    requires !Acquire(flags, capacity).Exhausted?
    ensures var a := Acquire(flags, capacity);
      var slot := if a.Reuse? then a.index else |flags|;
      var after := Install(flags, a, true);
      slot < |after| && CountActive(after[slot := false]) == CountActive(flags)
  {
    var a := Acquire(flags, capacity);
    var after := Install(flags, a, true);
    var slot := if a.Reuse? then a.index else |flags|;
    AcquireActivatesOne(flags, capacity);
    CountActiveUpdate(after, slot, false);
  }
}
