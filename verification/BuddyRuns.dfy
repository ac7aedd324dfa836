/** Whole runs of allocations and releases, over the tilings that the allocator's methods move between. */
module BuddyRuns {
  import opened Arith
  import opened BuddyTiles

  datatype Event = Take(head: nat, order: nat) | Give(head: nat, order: nat)

  /** One successful `buddy_alloc`/`buddy_alloc_at` or `buddy_free`, as their contracts describe it. */
  ghost predicate Step(s: seq<Block>, t: seq<Block>, e: Event) {
    match e
    case Take(h, o) => FreeRun(s, h, o) && Taken(s, t, h, o)
    case Give(h, o) => h < |s| && s[h] == Block(h, o, false) && Freed(s, t, h, o)
  }

  /** The blocks taken and not given back. */
  ghost function Outstanding(events: seq<Event>): set<(nat, nat)> {
    if events == [] then {}
    else
      var before, e := Outstanding(events[..|events| - 1]), events[|events| - 1];
      if e.Take? then before + {(e.head, e.order)} else before - {(e.head, e.order)}
  }

  /** A run in which callers give back only what they took. */
  ghost predicate Run(states: seq<seq<Block>>, events: seq<Event>, orders: nat) {
    && |states| == |events| + 1
    && (forall i | 0 <= i < |states| :: Tiled(states[i], orders) && Coalesced(states[i], orders))
    && (forall i | 0 <= i < |events| :: Step(states[i], states[i + 1], events[i]))
    && forall i | 0 <= i < |events| && events[i].Give? ::
         (events[i].head, events[i].order) in Outstanding(events[..i])
  }

  ghost predicate Holds(b: (nat, nat), p: nat) {
    In(p, b.0, b.1)
  }

  /** Against the first state, exactly the pages of outstanding blocks have changed hands. */
  ghost predicate Accounted(first: seq<Block>, now: seq<Block>, out: set<(nat, nat)>) {
    && |now| == |first|
    && (forall p: nat, b | p < |first| && b in out && Holds(b, p) :: now[p] == Block(b.0, b.1, false) && first[p].free)
    && forall p: nat | p < |first| && (forall b | b in out :: !Holds(b, p)) ::
         if first[p].free then now[p].free else now[p] == first[p]
  }

  lemma {:induction false} RunAccounted(states: seq<seq<Block>>, events: seq<Event>, orders: nat, n: nat)
    requires Run(states, events, orders) && n <= |events|
    ensures Accounted(states[0], states[n], Outstanding(events[..n]))
  {
    if n > 0 {
      RunAccounted(states, events, orders, n - 1);
      assert events[..n][..n - 1] == events[..n - 1];
      var out, e := Outstanding(events[..n - 1]), events[n - 1];
      assert Step(states[n - 1], states[n], e);
      if e.Take? {
        AccountTake(states[0], states[n - 1], states[n], out, e.head, e.order);
      } else {
        AccountGive(states[0], states[n - 1], states[n], out, e.head, e.order);
      }
    }
  }

  lemma AccountTake(first: seq<Block>, s: seq<Block>, t: seq<Block>, out: set<(nat, nat)>, h: nat, o: nat)
    requires Accounted(first, s, out) && FreeRun(s, h, o) && Taken(s, t, h, o)
    ensures Accounted(first, t, out + {(h, o)})
  {
    var more := out + {(h, o)};
    forall p: nat | p < |first| && (forall b | b in more :: !Holds(b, p))
      ensures if first[p].free then t[p].free else t[p] == first[p]
    {
      assert (h, o) in more;
      assert forall b | b in out :: b in more;
    }
  }

  lemma AccountGive(first: seq<Block>, s: seq<Block>, t: seq<Block>, out: set<(nat, nat)>, h: nat, o: nat)
    requires Accounted(first, s, out) && (h, o) in out && Freed(s, t, h, o)
    ensures Accounted(first, t, out - {(h, o)})
  {
    var less := out - {(h, o)};
    forall p: nat | p < |first| && (forall b | b in less :: !Holds(b, p))
      ensures if first[p].free then t[p].free else t[p] == first[p]
    {
      if !In(p, h, o) {
        forall b | b in out ensures !Holds(b, p) {
          assert b == (h, o) || b in less;
        }
      } else {
        assert Holds((h, o), p);
      }
    }
    forall p: nat, b | p < |first| && b in less && Holds(b, p)
      ensures t[p] == Block(b.0, b.1, false) && first[p].free
    {
      assert In(p, h, o) <==> Holds((h, o), p);
      assert b in out;
    }
  }

  /** After any run that gave everything back, in whatever order, every block is as it was at the start. */
  lemma RunRestores(states: seq<seq<Block>>, events: seq<Event>, orders: nat)
    requires Run(states, events, orders) && Outstanding(events) == {}
    ensures states[|events|] == states[0]
  {
    RunAccounted(states, events, orders, |events|);
    assert events[..|events|] == events;
    FreeBlocksDetermined(states[0], states[|events|], orders);
  }

  /** Outstanding blocks never overlap. */
  lemma RunDisjoint(states: seq<seq<Block>>, events: seq<Event>, orders: nat, n: nat, b: (nat, nat), c: (nat, nat), p: nat)
    requires Run(states, events, orders) && n <= |events| && p < |states[0]|
    requires b in Outstanding(events[..n]) && c in Outstanding(events[..n]) && Holds(b, p) && Holds(c, p)
    ensures b == c
  {
    RunAccounted(states, events, orders, n);
  }
}
