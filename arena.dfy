/** The slot arena of the hostname database: one flat sequence of integer
    pairs `(value, next)`, pair i at positions i and i + 1. Every key owns one
    chain threaded through the arena from its head pair; `next == 0` ends a
    chain. Slots are only ever appended, and a `next` pointer is only ever set
    to the length the arena had before an append, so every pointer moves
    forward: chains terminate and pair 0 can only be a head. */
module Arena {

  /** i is the index of a pair: even, with both positions inside the arena. */
  predicate IsSlot(slots: seq<nat>, i: nat)
  {
    i % 2 == 0 && i + 1 < |slots|
  }

  /** The next pointer of pair i ends the chain or points forward to a pair. */
  predicate NextOk(slots: seq<nat>, i: nat)
    requires IsSlot(slots, i)
  {
    var next := slots[i + 1];
    next == 0 || (i < next && IsSlot(slots, next))
  }

  /** The arena holds whole pairs and every next pointer moves forward. */
  ghost predicate WellFormed(slots: seq<nat>)
  {
    |slots| % 2 == 0 &&
    forall i {:trigger NextOk(slots, i)} :: IsSlot(slots, i) ==> NextOk(slots, i)
  }

  /** The pair indices visited by the do-while walk from `head`: every pair
      after the first lies beyond it, so no pair after the first is pair 0
      and 0 is safe as the end marker; `PathIncreasing` shows that each step
      moves forward. */
  ghost function Path(slots: seq<nat>, head: nat): (p: seq<nat>)
    requires WellFormed(slots) && IsSlot(slots, head)
    ensures |p| >= 1 && p[0] == head
    ensures forall j :: 0 <= j < |p| ==> IsSlot(slots, p[j]) && head <= p[j]
    ensures forall j :: 0 < j < |p| ==> head < p[j]
    ensures IsSlot(slots, p[|p| - 1]) && slots[p[|p| - 1] + 1] == 0
    decreases |slots| - head
  {
    assert NextOk(slots, head);
    if slots[head + 1] == 0 then [head] else [head] + Path(slots, slots[head + 1])
  }

  /** The values of the chain from `head`, in walk order. */
  ghost function Chain(slots: seq<nat>, head: nat): (c: seq<nat>)
    requires WellFormed(slots) && IsSlot(slots, head)
    ensures |c| >= 1 && c[0] == slots[head]
    decreases |slots| - head
  {
    assert NextOk(slots, head);
    [slots[head]] + (if slots[head + 1] == 0 then [] else Chain(slots, slots[head + 1]))
  }

  /** The j-th value of a chain is the value field of the j-th pair of its path. */
  lemma {:induction false} ChainAt(slots: seq<nat>, head: nat, j: nat)
    requires WellFormed(slots) && IsSlot(slots, head) && j < |Path(slots, head)|
    ensures |Chain(slots, head)| == |Path(slots, head)| && Chain(slots, head)[j] == slots[Path(slots, head)[j]]
    decreases |slots| - head
  {
    Unfold(slots, head);
    if slots[head + 1] != 0 {
      ChainAt(slots, slots[head + 1], if j > 0 then j - 1 else 0);
    }
  }

  /** Each step of the walk moves forward, so no pair is visited twice. */
  lemma {:induction false} PathIncreasing(slots: seq<nat>, head: nat)
    requires WellFormed(slots) && IsSlot(slots, head)
    ensures forall i, j :: 0 <= i < j < |Path(slots, head)| ==> Path(slots, head)[i] < Path(slots, head)[j]
    decreases |slots| - head
  {
    Unfold(slots, head);
    if slots[head + 1] != 0 {
      PathIncreasing(slots, slots[head + 1]);
    }
  }

  /** The last pair of the chain from `head`, the one whose next is 0: where
      the tail walk of `store` stops. */
  ghost function Tail(slots: seq<nat>, head: nat): (t: nat)
    requires WellFormed(slots) && IsSlot(slots, head)
    ensures IsSlot(slots, t) && slots[t + 1] == 0 && head <= t
    ensures slots[head + 1] != 0 ==> head < t
    ensures t == Path(slots, head)[|Path(slots, head)| - 1]
    decreases |slots| - head
  {
    assert NextOk(slots, head);
    if slots[head + 1] == 0 then head else Tail(slots, slots[head + 1])
  }

  /** The arena after `store` links a new pair `(v, 0)` behind tail pair t. */
  function Link(slots: seq<nat>, t: nat, v: nat): seq<nat>
    requires IsSlot(slots, t)
  {
    slots[t + 1 := |slots|] + [v, 0]
  }

  ghost predicate Disjoint(a: seq<nat>, b: seq<nat>)
  {
    forall x :: x in a ==> x !in b
  }

  /** The arena is well formed, every head is a pair, and the chains of two
      different keys share no pair. */
  ghost predicate ChainsValid<K>(heads: map<K, nat>, slots: seq<nat>)
  {
    && HeadsOk(heads, slots)
    && (forall k1, k2 :: k1 in heads && k2 in heads && k1 != k2 ==>
          Disjoint(Path(slots, heads[k1]), Path(slots, heads[k2])))
  }

  /** The arena is well formed and every head is a pair. */
  ghost predicate HeadsOk<K>(heads: map<K, nat>, slots: seq<nat>)
  {
    WellFormed(slots) && forall k :: k in heads ==> IsSlot(slots, heads[k])
  }

  /** What each key stores: the values of its chain, in insertion order. */
  ghost function Contents<K>(heads: map<K, nat>, slots: seq<nat>): map<K, seq<nat>>
    requires HeadsOk(heads, slots)
  {
    map k | k in heads :: Chain(slots, heads[k])
  }

  /** One step of the walk: a chain is its head pair followed by the chain
      its next pointer leads to, if any. */
  lemma Unfold(slots: seq<nat>, head: nat)
    requires WellFormed(slots) && IsSlot(slots, head)
    ensures slots[head + 1] == 0 ==> Path(slots, head) == [head] && Chain(slots, head) == [slots[head]]
    ensures slots[head + 1] != 0 ==>
      && NextOk(slots, head) && IsSlot(slots, slots[head + 1])
      && Path(slots, head) == [head] + Path(slots, slots[head + 1])
      && Chain(slots, head) == [slots[head]] + Chain(slots, slots[head + 1])
  {
    assert NextOk(slots, head);
  }

  /** No pair at or beyond `n >= |slots|` is on a chain. */
  lemma PathBelow(slots: seq<nat>, head: nat, n: nat)
    requires WellFormed(slots) && IsSlot(slots, head) && n + 1 >= |slots|
    ensures n !in Path(slots, head)
  {
  }

  lemma AppendWellFormed(slots: seq<nat>, v: nat)
    requires WellFormed(slots)
    ensures WellFormed(slots + [v, 0]) && IsSlot(slots + [v, 0], |slots|)
  {
    var s := slots + [v, 0];
    forall i: nat | IsSlot(s, i)
      ensures NextOk(s, i)
    {
      if i < |slots| {
        assert IsSlot(slots, i) && NextOk(slots, i);
      }
    }
  }

  lemma LinkWellFormed(slots: seq<nat>, t: nat, v: nat)
    requires WellFormed(slots) && IsSlot(slots, t) && slots[t + 1] == 0
    ensures WellFormed(Link(slots, t, v)) && IsSlot(Link(slots, t, v), |slots|)
  {
    var s := Link(slots, t, v);
    forall i: nat | IsSlot(s, i)
      ensures NextOk(s, i)
    {
      if i < |slots| && i != t {
        assert IsSlot(slots, i) && NextOk(slots, i);
      }
    }
  }

  /** Appending a pair leaves every existing chain as it was. */
  lemma {:induction false} PathAppend(slots: seq<nat>, head: nat, v: nat)
    requires WellFormed(slots) && IsSlot(slots, head)
    ensures WellFormed(slots + [v, 0]) && IsSlot(slots + [v, 0], head)
    ensures Path(slots + [v, 0], head) == Path(slots, head)
    ensures Chain(slots + [v, 0], head) == Chain(slots, head)
    decreases |slots| - head
  {
    AppendWellFormed(slots, v);
    var s := slots + [v, 0];
    assert s[head] == slots[head] && s[head + 1] == slots[head + 1];
    Unfold(slots, head);
    Unfold(s, head);
    if slots[head + 1] != 0 {
      PathAppend(slots, slots[head + 1], v);
    }
  }

  /** Linking behind a pair that is not on a chain leaves that chain as it was. */
  lemma {:induction false} PathLinkOther(slots: seq<nat>, head: nat, t: nat, v: nat)
    requires WellFormed(slots) && IsSlot(slots, head) && IsSlot(slots, t) && slots[t + 1] == 0
    requires t !in Path(slots, head)
    ensures WellFormed(Link(slots, t, v)) && IsSlot(Link(slots, t, v), head)
    ensures Path(Link(slots, t, v), head) == Path(slots, head)
    ensures Chain(Link(slots, t, v), head) == Chain(slots, head)
    decreases |slots| - head
  {
    LinkWellFormed(slots, t, v);
    var s := Link(slots, t, v);
    assert head != t;
    assert s[head] == slots[head] && s[head + 1] == slots[head + 1];
    Unfold(slots, head);
    Unfold(s, head);
    if slots[head + 1] != 0 {
      PathLinkOther(slots, slots[head + 1], t, v);
    }
  }

  /** Two arenas that agree on pair `head` and whose chains from its
      successor differ by a common suffix also differ by it from `head`. */
  lemma ExtendStep(slots: seq<nat>, s: seq<nat>, head: nat, ps: seq<nat>, cs: seq<nat>)
    requires WellFormed(slots) && IsSlot(slots, head) && WellFormed(s) && IsSlot(s, head)
    requires s[head] == slots[head] && s[head + 1] == slots[head + 1] != 0
    requires IsSlot(slots, slots[head + 1]) && IsSlot(s, slots[head + 1])
    requires Path(s, slots[head + 1]) == Path(slots, slots[head + 1]) + ps
    requires Chain(s, slots[head + 1]) == Chain(slots, slots[head + 1]) + cs
    ensures Path(s, head) == Path(slots, head) + ps
    ensures Chain(s, head) == Chain(slots, head) + cs
  {
    var next := slots[head + 1];
    Unfold(slots, head);
    Unfold(s, head);
    AppendAssoc([head], Path(slots, next), ps);
    AppendAssoc([slots[head]], Chain(slots, next), cs);
  }

  /** Solver hint: sequence concatenation is associative. */
  lemma AppendAssoc<T>(a: seq<T>, b: seq<T>, c: seq<T>)
    ensures a + (b + c) == (a + b) + c
  {
  }

  /** Linking behind a one-pair chain makes it a two-pair chain. */
  lemma LinkSingle(slots: seq<nat>, head: nat, v: nat)
    requires WellFormed(slots) && IsSlot(slots, head) && slots[head + 1] == 0
    ensures WellFormed(Link(slots, head, v)) && IsSlot(Link(slots, head, v), head)
    ensures Path(Link(slots, head, v), head) == [head, |slots|]
    ensures Chain(Link(slots, head, v), head) == [slots[head], v]
  {
    var n := |slots|;
    var s := Link(slots, head, v);
    LinkWellFormed(slots, head, v);
    assert s[head] == slots[head] && s[head + 1] == n && s[n] == v && s[n + 1] == 0;
    Unfold(s, n);
    Unfold(s, head);
  }

  /** Linking behind the tail of a chain appends the new value to it. */
  lemma {:induction false} PathLinkTail(slots: seq<nat>, head: nat, v: nat)
    requires WellFormed(slots) && IsSlot(slots, head)
    ensures WellFormed(Link(slots, Tail(slots, head), v))
    ensures IsSlot(Link(slots, Tail(slots, head), v), head)
    ensures Path(Link(slots, Tail(slots, head), v), head) == Path(slots, head) + [|slots|]
    ensures Chain(Link(slots, Tail(slots, head), v), head) == Chain(slots, head) + [v]
    decreases |slots| - head
  {
    if slots[head + 1] == 0 {
      Unfold(slots, head);
      LinkSingle(slots, head, v);
    } else {
      var t := Tail(slots, head);
      var s := Link(slots, t, v);
      var next := slots[head + 1];
      assert NextOk(slots, head);
      LinkWellFormed(slots, t, v);
      assert s[head] == slots[head] && s[head + 1] == next;
      PathLinkTail(slots, next, v);
      ExtendStep(slots, s, head, [|slots|], [v]);
    }
  }

  /** Solver hint: a pair outside b can join a and keep the two disjoint. */
  lemma DisjointAppend(a: seq<nat>, b: seq<nat>, n: nat)
    requires Disjoint(a, b) && Disjoint(b, a) && n !in b
    ensures Disjoint(a + [n], b) && Disjoint(b, a + [n])
  {
  }

  /** After appending a pair, every existing chain is unchanged and none
      of them reaches the new pair. */
  lemma PathsAfterAppend<K>(heads: map<K, nat>, slots: seq<nat>, v: nat)
    requires ChainsValid(heads, slots)
    ensures WellFormed(slots + [v, 0])
    ensures forall k | k in heads ::
      && IsSlot(slots + [v, 0], heads[k])
      && |slots| !in Path(slots, heads[k])
      && Path(slots + [v, 0], heads[k]) == Path(slots, heads[k])
      && Chain(slots + [v, 0], heads[k]) == Chain(slots, heads[k])
  {
    AppendWellFormed(slots, v);
    forall k | k in heads
      ensures IsSlot(slots + [v, 0], heads[k]) && |slots| !in Path(slots, heads[k])
      ensures Path(slots + [v, 0], heads[k]) == Path(slots, heads[k])
      ensures Chain(slots + [v, 0], heads[k]) == Chain(slots, heads[k])
    {
      PathAppend(slots, heads[k], v);
      PathBelow(slots, heads[k], |slots|);
    }
  }

  /** `store` of a value under a key that has no chain yet: the key gets a
      fresh one-pair chain at the old end of the arena, disjoint from all
      other chains. */
  lemma StoreNewKeyValid<K>(heads: map<K, nat>, slots: seq<nat>, key: K, v: nat)
    requires ChainsValid(heads, slots) && key !in heads
    ensures ChainsValid(heads[key := |slots|], slots + [v, 0])
    ensures Path(slots + [v, 0], |slots|) == [|slots|]
    ensures Chain(slots + [v, 0], |slots|) == [v]
  {
    var n := |slots|;
    var heads', s := heads[key := n], slots + [v, 0];
    PathsAfterAppend(heads, slots, v);
    assert IsSlot(s, n);
    Unfold(s, n);
    assert HeadsOk(heads', s);
    forall k1, k2 | k1 in heads' && k2 in heads' && k1 != k2
      ensures Disjoint(Path(s, heads'[k1]), Path(s, heads'[k2]))
    {
      if k1 != key && k2 != key {
        assert Disjoint(Path(slots, heads[k1]), Path(slots, heads[k2]));
      }
      NewKeyDisjoint(heads, slots, key, v, k1, k2);
    }
  }

  /** The new one-pair chain shares no pair with an old chain that does not
      reach the old end of the arena, and two old chains stay disjoint. */
  lemma NewKeyDisjoint<K>(heads: map<K, nat>, slots: seq<nat>, key: K, v: nat, k1: K, k2: K)
    requires key !in heads && k1 != k2
    requires k1 in heads[key := |slots|] && k2 in heads[key := |slots|]
    requires WellFormed(slots) && WellFormed(slots + [v, 0]) && IsSlot(slots + [v, 0], |slots|)
    requires Path(slots + [v, 0], |slots|) == [|slots|]
    requires k1 != key ==>
      && IsSlot(slots, heads[k1]) && IsSlot(slots + [v, 0], heads[k1]) && |slots| !in Path(slots, heads[k1])
      && Path(slots + [v, 0], heads[k1]) == Path(slots, heads[k1])
    requires k2 != key ==>
      && IsSlot(slots, heads[k2]) && IsSlot(slots + [v, 0], heads[k2]) && |slots| !in Path(slots, heads[k2])
      && Path(slots + [v, 0], heads[k2]) == Path(slots, heads[k2])
    requires k1 != key && k2 != key ==> Disjoint(Path(slots, heads[k1]), Path(slots, heads[k2]))
    ensures Disjoint(Path(slots + [v, 0], heads[key := |slots|][k1]), Path(slots + [v, 0], heads[key := |slots|][k2]))
  {
  }

  /** Two arenas whose chains agree on every key but one have the same
      contents except at that key. */
  lemma ContentsUpdate<K>(heads: map<K, nat>, slots: seq<nat>, heads': map<K, nat>, s: seq<nat>,
                          key: K, chain: seq<nat>)
    requires HeadsOk(heads, slots) && HeadsOk(heads', s)
    requires heads'.Keys == heads.Keys + {key}
    requires key in heads' && Chain(s, heads'[key]) == chain
    requires forall k | k in heads && k != key :: heads'[k] == heads[k] && Chain(s, heads[k]) == Chain(slots, heads[k])
    ensures Contents(heads', s) == Contents(heads, slots)[key := chain]
  {
    var c, c' := Contents(heads, slots), Contents(heads', s);
    var expected := c[key := chain];
    assert c'.Keys == expected.Keys;
    forall k | k in c'
      ensures c'[k] == expected[k]
    {
      if k != key {
        assert c'[k] == Chain(s, heads[k]) == Chain(slots, heads[k]) == c[k];
      }
    }
  }

  /** After `store` under a new key, the key holds just the new value and
      every other key holds what it held before. */
  lemma StoreNewKey<K>(heads: map<K, nat>, slots: seq<nat>, key: K, v: nat)
    requires ChainsValid(heads, slots) && key !in heads
    ensures ChainsValid(heads[key := |slots|], slots + [v, 0])
    ensures Contents(heads[key := |slots|], slots + [v, 0]) == Contents(heads, slots)[key := [v]]
  {
    StoreNewKeyValid(heads, slots, key, v);
    PathsAfterAppend(heads, slots, v);
    ContentsUpdate(heads, slots, heads[key := |slots|], slots + [v, 0], key, [v]);
  }

  /** After linking behind the tail of `key`'s chain, that chain has the new
      pair at its end and every other chain is unchanged. */
  lemma PathsAfterLink<K>(heads: map<K, nat>, slots: seq<nat>, key: K, v: nat)
    requires ChainsValid(heads, slots) && key in heads
    ensures WellFormed(Link(slots, Tail(slots, heads[key]), v))
    ensures IsSlot(Link(slots, Tail(slots, heads[key]), v), heads[key])
    ensures Path(Link(slots, Tail(slots, heads[key]), v), heads[key]) == Path(slots, heads[key]) + [|slots|]
    ensures Chain(Link(slots, Tail(slots, heads[key]), v), heads[key]) == Chain(slots, heads[key]) + [v]
    ensures forall k | k in heads :: |slots| !in Path(slots, heads[k])
    ensures forall k | k in heads && k != key ::
      && IsSlot(Link(slots, Tail(slots, heads[key]), v), heads[k])
      && Path(Link(slots, Tail(slots, heads[key]), v), heads[k]) == Path(slots, heads[k])
      && Chain(Link(slots, Tail(slots, heads[key]), v), heads[k]) == Chain(slots, heads[k])
  {
    PathLinkTail(slots, heads[key], v);
    PathsBelowEnd(heads, slots);
    OthersAfterLink(heads, slots, key, v);
  }

  /** No chain of a valid arena reaches its end. */
  lemma PathsBelowEnd<K>(heads: map<K, nat>, slots: seq<nat>)
    requires HeadsOk(heads, slots)
    ensures forall k | k in heads :: |slots| !in Path(slots, heads[k])
  {
    forall k | k in heads
      ensures |slots| !in Path(slots, heads[k])
    {
      PathBelow(slots, heads[k], |slots|);
    }
  }

  /** Linking behind the tail of `key`'s chain leaves every other chain as it was. */
  lemma OthersAfterLink<K>(heads: map<K, nat>, slots: seq<nat>, key: K, v: nat)
    requires ChainsValid(heads, slots) && key in heads
    ensures WellFormed(Link(slots, Tail(slots, heads[key]), v))
    ensures forall k | k in heads && k != key ::
      && IsSlot(Link(slots, Tail(slots, heads[key]), v), heads[k])
      && Path(Link(slots, Tail(slots, heads[key]), v), heads[k]) == Path(slots, heads[k])
      && Chain(Link(slots, Tail(slots, heads[key]), v), heads[k]) == Chain(slots, heads[k])
  {
    var s := Link(slots, Tail(slots, heads[key]), v);
    LinkWellFormed(slots, Tail(slots, heads[key]), v);
    forall k | k in heads && k != key
      ensures IsSlot(s, heads[k]) && Path(s, heads[k]) == Path(slots, heads[k])
      ensures Chain(s, heads[k]) == Chain(slots, heads[k])
    {
      assert Disjoint(Path(slots, heads[key]), Path(slots, heads[k]));
      LinkOther(slots, heads[key], heads[k], v);
    }
  }

  /** Linking behind the tail of one chain leaves a chain disjoint from it as it was. */
  lemma LinkOther(slots: seq<nat>, owner: nat, head: nat, v: nat)
    requires WellFormed(slots) && IsSlot(slots, owner) && IsSlot(slots, head)
    requires Disjoint(Path(slots, owner), Path(slots, head))
    ensures WellFormed(Link(slots, Tail(slots, owner), v)) && IsSlot(Link(slots, Tail(slots, owner), v), head)
    ensures Path(Link(slots, Tail(slots, owner), v), head) == Path(slots, head)
    ensures Chain(Link(slots, Tail(slots, owner), v), head) == Chain(slots, head)
  {
    var t := Tail(slots, owner);
    assert t in Path(slots, owner);
    PathLinkOther(slots, head, t, v);
  }

  /** Linking a value behind the tail of `key`'s chain keeps all chains
      disjoint. */
  lemma StoreExistingKeyValid<K>(heads: map<K, nat>, slots: seq<nat>, key: K, v: nat)
    requires ChainsValid(heads, slots) && key in heads
    ensures ChainsValid(heads, Link(slots, Tail(slots, heads[key]), v))
  {
    var s := Link(slots, Tail(slots, heads[key]), v);
    PathsAfterLink(heads, slots, key, v);
    forall k1, k2 | k1 in heads && k2 in heads && k1 != k2
      ensures Disjoint(Path(s, heads[k1]), Path(s, heads[k2]))
    {
      var a, b := Path(slots, heads[k1]), Path(slots, heads[k2]);
      assert Disjoint(a, b) && Disjoint(b, a);
      if k1 == key {
        DisjointAppend(a, b, |slots|);
      } else if k2 == key {
        DisjointAppend(b, a, |slots|);
      }
    }
  }

  /** `store` of a value under a key that has a chain: the value is linked
      behind the tail of that chain; the chains of all other keys are
      unchanged because they do not pass through that tail. */
  lemma StoreExistingKey<K>(heads: map<K, nat>, slots: seq<nat>, key: K, v: nat)
    requires ChainsValid(heads, slots) && key in heads
    ensures ChainsValid(heads, Link(slots, Tail(slots, heads[key]), v))
    ensures Contents(heads, Link(slots, Tail(slots, heads[key]), v))
         == Contents(heads, slots)[key := Chain(slots, heads[key]) + [v]]
  {
    var s := Link(slots, Tail(slots, heads[key]), v);
    StoreExistingKeyValid(heads, slots, key, v);
    PathsAfterLink(heads, slots, key, v);
    ContentsUpdate(heads, slots, heads, s, key, Chain(slots, heads[key]) + [v]);
  }
}
