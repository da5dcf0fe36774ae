/** Bullets and the per-frame cull of bullets that have left the field.

    `cleanUpBullets` walks the group's live list of children with an index and
    `destroy`s a bullet that is outside the field. Destroying removes the bullet
    from that same list, so the next bullet moves into the current index. When
    the x test destroys a bullet, the one that moves in gets only the y test;
    when the y test destroys a bullet, the one that moves in is stepped over
    untested by the unconditional index increment.
    `Cull` follows the loop exactly; the lemmas say what it guarantees anyway. */
module Bullets {
  import Pool

  /** One member of the bullet group. */
  datatype Bullet = Bullet(active: bool, x: real, y: real, vx: real, vy: real)

  predicate IsLive(b: Bullet)
  {
    b.active
  }

  /** The active flags of the group, in group order. */
  function ActiveFlags(s: seq<Bullet>): seq<bool>
  {
    Pool.Flags(s, IsLive)
  }

  /** The first test of the loop body: beyond the left or right edge. */
  predicate OutX(b: Bullet, width: int)
  {
    b.x > width as real || b.x < 0.0
  }

  /** The second test of the loop body: below the bottom or above the top edge. */
  predicate OutY(b: Bullet, height: int)
  {
    b.y > height as real || b.y < 0.0
  }

  predicate InField(b: Bullet, width: int, height: int)
  {
    !OutX(b, width) && !OutY(b, height)
  }

  /** The bullets kept by the loop, given the part `r` of the live list that
      starts at the current index, at the top of an iteration. */
  function Cull(r: seq<Bullet>, width: int, height: int): seq<Bullet>
    decreases |r|, 2
  {
    if r == [] then []
    else if OutX(r[0], width) then CullY(r[1..], width, height)
    else CullY(r, width, height)
  }

  /** The same, after the first test and before the second. */
  function CullY(r: seq<Bullet>, width: int, height: int): seq<Bullet>
    decreases |r|, 1
  {
    if r == [] then []
    else if OutY(r[0], height) then Step(r[1..], width, height)
    else Step(r, width, height)
  }

  /** The same, after both tests: the bullet now at the index is kept untested
      and the index moves on. */
  function Step(r: seq<Bullet>, width: int, height: int): seq<Bullet>
    decreases |r|, 0
  {
    if r == [] then [] else [r[0]] + Cull(r[1..], width, height)
  }

  /** The first test of an iteration at index `i`, on the live list `l`. */
  lemma AfterFirstTest(l: seq<Bullet>, i: nat, width: int, height: int)
    requires i < |l|
    ensures var l' := if OutX(l[i], width) then l[..i] + l[i + 1..] else l;
      i <= |l'| && l[..i] + Cull(l[i..], width, height) == l'[..i] + CullY(l'[i..], width, height)
  {
    assert l[i..][0] == l[i];
    if OutX(l[i], width) {
      var l' := l[..i] + l[i + 1..];
      assert l'[..i] == l[..i] && l'[i..] == l[i..][1..];
    }
  }

  /** The second test of an iteration at index `i`, which finds no bullet
      when the first test destroyed the last one. */
  lemma AfterSecondTest(l: seq<Bullet>, i: nat, width: int, height: int)
    requires i <= |l|
    ensures var l' := if i < |l| && OutY(l[i], height) then l[..i] + l[i + 1..] else l;
      i <= |l'| && l[..i] + CullY(l[i..], width, height) == l'[..i] + Step(l'[i..], width, height)
  {
    if i < |l| {
      assert l[i..][0] == l[i];
      if OutY(l[i], height) {
        var l' := l[..i] + l[i + 1..];
        assert l'[..i] == l[..i] && l'[i..] == l[i..][1..];
      }
    } else {
      assert l[i..] == [];
    }
  }

  /** The index increment that ends an iteration. */
  lemma AfterIncrement(l: seq<Bullet>, i: nat, width: int, height: int)
    requires i <= |l|
    ensures i < |l| ==> l[..i] + Step(l[i..], width, height) == l[..i + 1] + Cull(l[i + 1..], width, height)
    ensures i == |l| ==> l[..i] + Step(l[i..], width, height) == l
  {
    if i < |l| {
      assert l[..i + 1] == l[..i] + [l[i]];
      assert l[i..][1..] == l[i + 1..];
      assert l[i..][0] == l[i];
    } else {
      assert l[..i] == l && l[i..] == [];
    }
  }

  /** `after` is `before` with some out-of-field bullets deleted and nothing else
      changed: no in-field bullet is deleted, nothing is added or reordered. */
  predicate RemovesOnlyOutside(before: seq<Bullet>, after: seq<Bullet>, width: int, height: int)
    decreases |before|
  {
    if before == [] then after == []
    else
      (after != [] && after[0] == before[0] && RemovesOnlyOutside(before[1..], after[1..], width, height))
      || (!InField(before[0], width, height) && RemovesOnlyOutside(before[1..], after, width, height))
  }

  /** The in-field bullets, in order. */
  function Inside(s: seq<Bullet>, width: int, height: int): seq<Bullet>
  {
    if s == [] then []
    else (if InField(s[0], width, height) then [s[0]] else []) + Inside(s[1..], width, height)
  }

  lemma {:induction false} CullRemovesOnlyOutside(r: seq<Bullet>, width: int, height: int)
    ensures RemovesOnlyOutside(r, Cull(r, width, height), width, height)
    decreases |r|, 2
  {
    if r != [] {
      if OutX(r[0], width) {
        CullYRemovesOnlyOutside(r[1..], width, height);
      } else {
        CullYRemovesOnlyOutside(r, width, height);
      }
    }
  }

  lemma {:induction false} CullYRemovesOnlyOutside(r: seq<Bullet>, width: int, height: int)
    ensures RemovesOnlyOutside(r, CullY(r, width, height), width, height)
    decreases |r|, 1
  {
    if r != [] {
      if OutY(r[0], height) {
        StepRemovesOnlyOutside(r[1..], width, height);
      } else {
        StepRemovesOnlyOutside(r, width, height);
      }
    }
  }

  lemma {:induction false} StepRemovesOnlyOutside(r: seq<Bullet>, width: int, height: int)
    ensures RemovesOnlyOutside(r, Step(r, width, height), width, height)
    decreases |r|, 0
  {
    if r != [] {
      CullRemovesOnlyOutside(r[1..], width, height);
      var t := Step(r, width, height);
      assert t[0] == r[0] && t[1..] == Cull(r[1..], width, height);
    }
  }

  /** Deleting only out-of-field bullets keeps every in-field bullet, in its
      original relative order, and never lengthens the list. */
  lemma {:induction false} RemovesOnlyOutsideKeepsInside(before: seq<Bullet>, after: seq<Bullet>, width: int, height: int)
    requires RemovesOnlyOutside(before, after, width, height)
    ensures Inside(after, width, height) == Inside(before, width, height)
    ensures |after| <= |before|
    ensures multiset(after) <= multiset(before)
    decreases |before|
  {
    if before != [] {
      if after != [] && after[0] == before[0] && RemovesOnlyOutside(before[1..], after[1..], width, height) {
        RemovesOnlyOutsideKeepsInside(before[1..], after[1..], width, height);
        assert before == [before[0]] + before[1..];
        assert after == [after[0]] + after[1..];
      } else {
        RemovesOnlyOutsideKeepsInside(before[1..], after, width, height);
        assert before == [before[0]] + before[1..];
      }
    }
  }

  /** When every bullet is in the field, deleting only out-of-field bullets
      deletes nothing. */
  lemma {:induction false} RemovesNothingInside(before: seq<Bullet>, after: seq<Bullet>, width: int, height: int)
    requires RemovesOnlyOutside(before, after, width, height)
    requires forall i :: 0 <= i < |before| ==> InField(before[i], width, height)
    ensures after == before
    decreases |before|
  {
    if before != [] {
      assert InField(before[0], width, height);
      assert forall i :: 0 <= i < |before[1..]| ==> before[1..][i] == before[i + 1];
      RemovesNothingInside(before[1..], after[1..], width, height);
    }
  }

  /** The cull's guarantee: only out-of-field bullets disappear, every in-field
      bullet survives in its order, and a field with no stray bullet is left alone. */
  lemma CullKeepsInside(r: seq<Bullet>, width: int, height: int)
    ensures RemovesOnlyOutside(r, Cull(r, width, height), width, height)
    ensures Inside(Cull(r, width, height), width, height) == Inside(r, width, height)
    ensures |Cull(r, width, height)| <= |r|
    ensures (forall i :: 0 <= i < |r| ==> InField(r[i], width, height)) ==> Cull(r, width, height) == r
  {
    CullRemovesOnlyOutside(r, width, height);
    RemovesOnlyOutsideKeepsInside(r, Cull(r, width, height), width, height);
    if forall i :: 0 <= i < |r| ==> InField(r[i], width, height) {
      RemovesNothingInside(r, Cull(r, width, height), width, height);
    }
  }

  /** A stray bullet preceded only by in-field bullets is removed: the kept
      list is the prefix followed by what the loop keeps of the rest, and the
      stray bullet is not part of it. */
  lemma {:induction false} CullRemovesFirstStray(p: seq<Bullet>, b: Bullet, rest: seq<Bullet>, width: int, height: int)
    requires forall i :: 0 <= i < |p| ==> InField(p[i], width, height)
    requires !InField(b, width, height)
    ensures Cull(p + [b] + rest, width, height)
         == p + (if OutX(b, width) then CullY(rest, width, height) else Step(rest, width, height))
    decreases |p|
  {
    if p == [] {
      assert p + [b] + rest == [b] + rest;
      assert ([b] + rest)[1..] == rest;
    } else {
      var s := p + [b] + rest;
      assert s[1..] == p[1..] + [b] + rest;
      assert InField(p[0], width, height);
      assert forall i :: 0 <= i < |p[1..]| ==> p[1..][i] == p[i + 1];
      CullRemovesFirstStray(p[1..], b, rest, width, height);
      assert Cull(s, width, height) == Step(s, width, height);
      assert p == [p[0]] + p[1..];
    }
  }

  /** When one stray bullet is destroyed by the first test, the next bullet
      moves into its index and is only given the second test; so a second
      bullet beyond a side edge survives this frame's cull. */
  lemma CullCanKeepAStray()
    ensures var first := Bullet(true, -1.0, 5.0, 0.0, 0.0);
      var second := Bullet(true, -2.0, 5.0, 0.0, 0.0);
      Cull([first, second], 10, 10) == [second] && !InField(second, 10, 10)
  {
    var first := Bullet(true, -1.0, 5.0, 0.0, 0.0);
    var second := Bullet(true, -2.0, 5.0, 0.0, 0.0);
    assert [first, second][1..] == [second];
    assert [second][1..] == [];
    assert Step([second], 10, 10) == [second];
    assert CullY([second], 10, 10) == [second];
  }
}
