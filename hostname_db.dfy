/** `StaticExtFilteringHostnameDB`: values (selectors) stored under hostname
    and `/regex/` keys, each value a packed (string index, category bits)
    pair kept in a slot arena; `retrieve` walks a hostname's domain suffixes
    and the regex keys and drops the matching strings into output buckets
    picked by the low bits of each packed value. */
module HostnameDb {
  import opened Encoding
  import opened Arena
  import opened SuffixWalk

  datatype Option<T> = None | Some(value: T)

  /** The category width `nBits`. JavaScript shifts by `nBits % 32`, so only
      widths below 32 mean what they say. */
  type Width = n: nat | n < 32

  /** The two key namespaces: a hostname and a regex source never share a
      chain, even when their text is alike. */
  datatype Key = Host(name: string) | Regex(source: string)

  /** `hn.charCodeAt(0) === 0x2F`: the key is a regex source. The empty key
      has no first character and is a hostname key. */
  predicate IsRegexKey(hn: string)
  {
    |hn| > 0 && hn[0] == '/'
  }

  function KeyOf(hn: string): Key
  {
    if IsRegexKey(hn) then Regex(hn) else Host(hn)
  }

  /** `restr.slice(1, -1)`: the regex source without its two slashes. */
  function Pattern(restr: string): string
  {
    if |restr| >= 2 then restr[1..|restr| - 1] else ""
  }

  /** The durable part of the database: the two key indexes, the slot arena
      and the string table. */
  datatype Index = Index(hosts: map<string, nat>, regexes: map<string, nat>,
                         slots: seq<nat>, strs: seq<string>)

  /** heads is the two key indexes seen as one map from `Key` to chain head. */
  ghost predicate Tied(heads: map<Key, nat>, hosts: map<string, nat>, regexes: map<string, nat>)
  {
    && (forall n :: Host(n) in heads <==> n in hosts)
    && (forall n :: Regex(n) in heads <==> n in regexes)
    && (forall n :: n in hosts ==> heads[Host(n)] == hosts[n])
    && (forall n :: n in regexes ==> heads[Regex(n)] == regexes[n])
  }

  /** Both key indexes as one map from `Key` to chain head. */
  ghost function Heads(hosts: map<string, nat>, regexes: map<string, nat>): (h: map<Key, nat>)
    ensures Tied(h, hosts, regexes)
  {
    TiedExists(hosts, regexes);
    var h :| Tied(h, hosts, regexes); h
  }

  lemma TiedExists(hosts: map<string, nat>, regexes: map<string, nat>)
    ensures exists h :: Tied(h, hosts, regexes)
  {
    var hm := map k | k in hosts :: Host(k) := hosts[k];
    var rm := map k | k in regexes :: Regex(k) := regexes[k];
    var h := hm + rm;
    forall n ensures (Host(n) in h <==> n in hosts) && (n in hosts ==> h[Host(n)] == hosts[n]) {
      assert Host(n) !in rm;
      if n in hosts { assert Host(n) in hm && hm[Host(n)] == hosts[n]; }
    }
    forall n ensures (Regex(n) in h <==> n in regexes) && (n in regexes ==> h[Regex(n)] == regexes[n]) {
      assert Regex(n) !in hm;
      if n in regexes { assert Regex(n) in rm && rm[Regex(n)] == regexes[n]; }
    }
    assert Tied(h, hosts, regexes);
  }

  /** The head `store` looks up for hn, in the index its first character picks. */
  function HeadOf(hosts: map<string, nat>, regexes: map<string, nat>, hn: string): Option<nat>
  {
    if IsRegexKey(hn) then (if hn in regexes then Some(regexes[hn]) else None)
    else if hn in hosts then Some(hosts[hn]) else None
  }

  /** Both key indexes after `store` looks up hn in the one its first
      character picks: a key that index lacks gets head n there. */
  function Recorded(hosts: map<string, nat>, regexes: map<string, nat>, hn: string, n: nat)
    : (map<string, nat>, map<string, nat>)
  {
    if IsRegexKey(hn) then (hosts, if hn in regexes then regexes else regexes[hn := n])
    else (if hn in hosts then hosts else hosts[hn := n], regexes)
  }

  /** The chains are well formed and pairwise disjoint, and every head is a pair. */
  ghost predicate Linked(ix: Index)
  {
    ChainsValid(Heads(ix.hosts, ix.regexes), ix.slots) && Walkable(ix)
  }

  /** The arena is well formed and every head of both indexes is a pair,
      so every chain `retrieve` walks is defined. */
  ghost predicate Walkable(ix: Index)
  {
    HeadsOk(ix.hosts, ix.slots) && HeadsOk(ix.regexes, ix.slots)
  }

  /** Every stored value names a string of the table: `strSlots[strId >>> nBits]` exists. */
  ghost predicate Decodable(slots: seq<nat>, strs: seq<string>, nBits: nat)
  {
    forall i: nat :: IsSlot(slots, i) ==> StrIndexOf(slots[i], nBits) < |strs|
  }

  ghost predicate IndexValid(ix: Index, nBits: nat)
  {
    Linked(ix) && Decodable(ix.slots, ix.strs, nBits)
  }

  /** The reverse map only ever points at the string it was recorded for. */
  ghost predicate InternValid(strToId: map<string, nat>, strs: seq<string>)
  {
    forall s :: s in strToId ==> strToId[s] < |strs| && strs[strToId[s]] == s
  }

  ghost function Elems(s: seq<nat>): set<nat>
  {
    set x | x in s
  }

  /** The values stored under key p of an index, none when p is absent. */
  ghost function KeyValues(heads: map<string, nat>, slots: seq<nat>, p: string): set<nat>
    requires HeadsOk(heads, slots)
  {
    if p in heads then Elems(Chain(slots, heads[p])) else {}
  }

  /** The values found under the hostname keys `probes`. */
  ghost function HostValues(ix: Index, probes: seq<string>): set<nat>
    requires HeadsOk(ix.hosts, ix.slots)
  {
    if probes == [] then {}
    else
      var p := probes[|probes| - 1];
      HostValues(ix, probes[..|probes| - 1]) + KeyValues(ix.hosts, ix.slots, p)
  }

  /** The values found under those regex keys of `keys` whose pattern
      matches the hostname; `test(pattern, hostname)` is the regex engine. */
  ghost function RegexValues(ix: Index, keys: set<string>, hostname: string,
                             test: (string, string) -> bool): set<nat>
    requires HeadsOk(ix.regexes, ix.slots)
  {
    set k, x | k in keys && k in ix.regexes && test(Pattern(k), hostname)
                 && x in Chain(ix.slots, ix.regexes[k]) :: x
  }

  /** Every value `retrieve(hostname, out, modifiers)` finds. */
  ghost function Retrieved(ix: Index, hostname: string, modifiers: int,
                           test: (string, string) -> bool): set<nat>
    requires Walkable(ix)
  {
    if modifiers == 0 || modifiers == 3 then
      HostValues(ix, Probes(hostname, modifiers)) + RegexValues(ix, ix.regexes.Keys, hostname, test)
    else
      HostValues(ix, Probes(hostname, modifiers))
  }

  /** The strings that values `vals` put into bucket b: those with
      `strId & mask == b`, decoded through the string table. */
  ghost function Deposit(strs: seq<string>, nBits: nat, vals: set<nat>, mask: nat, b: nat): set<string>
  {
    set x | x in vals && BucketOf(x, mask) == b && StrIndexOf(x, nBits) < |strs| :: strs[StrIndexOf(x, nBits)]
  }

  /** The snapshot `toSelfie` returns and `fromSelfie` reads back: the two
      indexes as (key, head) pairs, the arena, the strings and the size. A
      snapshot written before regex keys existed has no regex pairs. */
  datatype Selfie = Selfie(hostnameToSlotIdMap: seq<(string, nat)>,
                           regexToSlotIdMap: Option<seq<(string, nat)>>,
                           hostnameSlots: seq<nat>, strSlots: seq<string>, size: nat)

  ghost predicate DistinctKeys(ps: seq<(string, nat)>)
  {
    forall i, j :: 0 <= i < j < |ps| ==> ps[i].0 != ps[j].0
  }

  /** ps lists the entries of m, each key once: what `Array.from(map)` gives. */
  ghost predicate ListsEntries(ps: seq<(string, nat)>, m: map<string, nat>)
  {
    && DistinctKeys(ps)
    && (forall i :: 0 <= i < |ps| ==> ps[i].0 in m && m[ps[i].0] == ps[i].1)
    && (forall k :: k in m ==> (k, m[k]) in ps)
  }

  /** `new Map(pairs)`: the pairs entered one by one, a later pair for a
      key replacing an earlier one. */
  function MapOfPairs(ps: seq<(string, nat)>): map<string, nat>
  {
    if ps == [] then map[]
    else MapOfPairs(ps[..|ps| - 1])[ps[|ps| - 1].0 := ps[|ps| - 1].1]
  }

  /** The map built from pairs has every key of the pairs and only those,
      each with the value of its last pair. */
  lemma {:induction false} MapOfPairsEntries(ps: seq<(string, nat)>)
    ensures forall i :: 0 <= i < |ps| ==> ps[i].0 in MapOfPairs(ps)
    ensures forall k :: k in MapOfPairs(ps) ==> (k, MapOfPairs(ps)[k]) in ps
    ensures forall i :: 0 <= i < |ps| && (forall j :: i < j < |ps| ==> ps[j].0 != ps[i].0) ==>
              MapOfPairs(ps)[ps[i].0] == ps[i].1
  {
    if ps != [] {
      var init, last := ps[..|ps| - 1], ps[|ps| - 1];
      MapOfPairsEntries(init);
      var m', m := MapOfPairs(init), MapOfPairs(ps);
      assert m == m'[last.0 := last.1];
      forall i | 0 <= i < |ps| ensures ps[i].0 in m {
        if i < |ps| - 1 {
          assert ps[i] == init[i];
        }
      }
      forall k | k in m ensures (k, m[k]) in ps {
        if k != last.0 {
          assert (k, m'[k]) in init;
        }
      }
      forall i | 0 <= i < |ps| && (forall j :: i < j < |ps| ==> ps[j].0 != ps[i].0)
        ensures m[ps[i].0] == ps[i].1
      {
        if i < |ps| - 1 {
          assert ps[i] == init[i];
          assert forall j :: i < j < |init| ==> init[j].0 != init[i].0 by {
            forall j | i < j < |init| ensures init[j].0 != init[i].0 {
              assert init[j] == ps[j];
            }
          }
        }
      }
    }
  }

  /** The index `fromSelfie` installs: the regex index is kept from before
      when the snapshot has none. */
  function Restore(sel: Selfie, regexes: map<string, nat>): Index
  {
    Index(MapOfPairs(sel.hostnameToSlotIdMap),
          if sel.regexToSlotIdMap.Some? then MapOfPairs(sel.regexToSlotIdMap.value) else regexes,
          sel.hostnameSlots, sel.strSlots)
  }

  /** A snapshot a fresh database can answer queries from. */
  ghost predicate SelfieValid(sel: Selfie, nBits: nat)
  {
    IndexValid(Restore(sel, map[]), nBits) && sel.size == |sel.hostnameSlots| / 2
  }

  // ---------------------------------------------------------------------
  // Lemmas about the specification functions

  /** Restoring the listed entries of a map gives that map back. */
  lemma RestoreEntries(ps: seq<(string, nat)>, m: map<string, nat>)
    requires ListsEntries(ps, m)
    ensures MapOfPairs(ps) == m
  {
    var r := MapOfPairs(ps);
    MapOfPairsEntries(ps);
    forall k | k in m ensures k in r && r[k] == m[k] {
      var i :| 0 <= i < |ps| && ps[i] == (k, m[k]);
      assert ps[i].0 == k;
    }
    forall k | k in r ensures k in m {
      var i :| 0 <= i < |ps| && ps[i] == (k, r[k]);
      assert ps[i].0 in m;
    }
  }

  /** Two maps tied to the same indexes are the same map. */
  lemma TiedUnique(a: map<Key, nat>, b: map<Key, nat>, hosts: map<string, nat>, regexes: map<string, nat>)
    requires Tied(a, hosts, regexes) && Tied(b, hosts, regexes)
    ensures a == b
  {
    forall key: Key ensures (key in a <==> key in b) && (key in a ==> a[key] == b[key]) {
      match key
      case Host(n) =>
      case Regex(n) =>
    }
    assert a.Keys == b.Keys;
  }

  /** A key has a chain exactly when `store` finds a head for it. */
  lemma TiedLookup(heads: map<Key, nat>, hosts: map<string, nat>, regexes: map<string, nat>, hn: string)
    requires Tied(heads, hosts, regexes)
    ensures KeyOf(hn) in heads <==> HeadOf(hosts, regexes, hn).Some?
    ensures KeyOf(hn) in heads ==> heads[KeyOf(hn)] == HeadOf(hosts, regexes, hn).value
  {
  }

  /** What each key stores after value v is appended under key. */
  function Extended(c: map<Key, seq<nat>>, key: Key, v: nat): map<Key, seq<nat>>
  {
    c[key := (if key in c then c[key] else []) + [v]]
  }

  lemma ExtendedNew(c: map<Key, seq<nat>>, key: Key, v: nat)
    requires key !in c
    ensures Extended(c, key, v) == c[key := [v]]
  {
    assert [] + [v] == [v];
  }

  /** The heads of both indexes are pairs when those of the combined map are. */
  lemma TiedHeadsOk(heads: map<Key, nat>, hosts: map<string, nat>, regexes: map<string, nat>, slots: seq<nat>)
    requires Tied(heads, hosts, regexes) && HeadsOk(heads, slots)
    ensures HeadsOk(hosts, slots) && HeadsOk(regexes, slots)
  {
    forall h | h in hosts ensures IsSlot(slots, hosts[h]) {
      assert Host(h) in heads;
    }
    forall r | r in regexes ensures IsSlot(slots, regexes[r]) {
      assert Regex(r) in heads;
    }
  }

  /** Recording a new head for hn in the index its first character picks
      adds its key to the combined map. */
  lemma TiedAdd(heads: map<Key, nat>, hosts: map<string, nat>, regexes: map<string, nat>, hn: string, n: nat)
    requires Tied(heads, hosts, regexes)
    ensures IsRegexKey(hn) ==> Tied(heads[KeyOf(hn) := n], hosts, regexes[hn := n])
    ensures !IsRegexKey(hn) ==> Tied(heads[KeyOf(hn) := n], hosts[hn := n], regexes)
  {
  }

  /** The values under a list of probes are those under the probes one by one. */
  lemma {:induction false} HostValuesMembers(ix: Index, probes: seq<string>, x: nat)
    requires HeadsOk(ix.hosts, ix.slots)
    ensures x in HostValues(ix, probes) <==>
              exists p :: p in probes && p in ix.hosts && x in Chain(ix.slots, ix.hosts[p])
  {
    if probes != [] {
      var init, p := probes[..|probes| - 1], probes[|probes| - 1];
      HostValuesMembers(ix, init, x);
      assert probes == init + [p];
      if x in HostValues(ix, probes) && !(x in HostValues(ix, init)) {
        assert p in probes && p in ix.hosts && x in Chain(ix.slots, ix.hosts[p]);
      }
      forall q | q in probes && q in ix.hosts && x in Chain(ix.slots, ix.hosts[q])
        ensures x in HostValues(ix, probes)
      {
        if q != p {
          assert q in init;
        }
      }
    }
  }

  /** What `retrieve` finds, without the loops: the values of every hostname
      key the suffix walk visits, and under modifiers 0 and 3 those of every
      regex key whose pattern matches the whole hostname. */
  lemma RetrievedMembers(ix: Index, hostname: string, modifiers: int,
                         test: (string, string) -> bool, x: nat)
    requires Walkable(ix)
    ensures x in Retrieved(ix, hostname, modifiers, test) <==>
      (exists p :: p in ix.hosts && Visits(hostname, modifiers, p) && x in Chain(ix.slots, ix.hosts[p]))
      || ((modifiers == 0 || modifiers == 3) &&
          exists k :: k in ix.regexes && test(Pattern(k), hostname) && x in Chain(ix.slots, ix.regexes[k]))
  {
    var probes := Probes(hostname, modifiers);
    HostValuesMembers(ix, probes, x);
    forall p ensures p in probes <==> Visits(hostname, modifiers, p) {
      ProbesMembers(hostname, modifiers, p);
    }
  }

  /** With a bucket array of length L, a power of two, a string lands in
      bucket b exactly when one of its values is b modulo L. */
  lemma DepositRouting(strs: seq<string>, nBits: nat, vals: set<nat>, len: nat, b: nat, s: string)
    requires IsPowerOfTwo(len)
    ensures s in Deposit(strs, nBits, vals, len - 1, b) <==>
              exists x :: x in vals && x % len == b && StrIndexOf(x, nBits) < |strs| && strs[StrIndexOf(x, nBits)] == s
  {
    forall x | x in vals ensures BucketOf(x, len - 1) == x % len {
      MaskIsMod(x, len);
    }
  }

  lemma DepositUnion(strs: seq<string>, nBits: nat, a: set<nat>, c: set<nat>, mask: nat, b: nat)
    ensures Deposit(strs, nBits, a + c, mask, b) == Deposit(strs, nBits, a, mask, b) + Deposit(strs, nBits, c, mask, b)
  {
  }

  lemma DepositOne(strs: seq<string>, nBits: nat, done: seq<nat>, v: nat, mask: nat, b: nat)
    requires StrIndexOf(v, nBits) < |strs|
    ensures BucketOf(v, mask) == b ==>
              Deposit(strs, nBits, Elems(done + [v]), mask, b)
                == Deposit(strs, nBits, Elems(done), mask, b) + {strs[StrIndexOf(v, nBits)]}
    ensures BucketOf(v, mask) != b ==>
              Deposit(strs, nBits, Elems(done + [v]), mask, b) == Deposit(strs, nBits, Elems(done), mask, b)
  {
    assert Elems(done + [v]) == Elems(done) + {v};
    DepositUnion(strs, nBits, Elems(done), {v}, mask, b);
    if BucketOf(v, mask) == b {
      assert Deposit(strs, nBits, {v}, mask, b) == {strs[StrIndexOf(v, nBits)]};
    } else {
      assert Deposit(strs, nBits, {v}, mask, b) == {};
    }
  }

  /** Solver hint: set union is associative. */
  lemma UnionAssoc<T>(x: set<T>, y: set<T>, z: set<T>)
    ensures (x + y) + z == x + (y + z)
  {
  }

  /** Bucket array `after` is `before` with every string of values `vals`
      added to the bucket its value picks under mask `|before| - 1`. */
  ghost predicate Deposited(before: seq<set<string>>, after: seq<set<string>>, strs: seq<string>,
                            nBits: nat, vals: set<nat>)
  {
    && |after| == |before|
    && forall b :: 0 <= b < |after| ==> after[b] == before[b] + Deposit(strs, nBits, vals, |before| - 1, b)
  }

  /** Depositing nothing leaves the buckets as they are. */
  lemma DepositedNone(a: seq<set<string>>, strs: seq<string>, nBits: nat)
    ensures Deposited(a, a, strs, nBits, {})
  {
  }

  /** Two deposits in a row are one deposit of both value sets. */
  lemma DepositedTrans(a: seq<set<string>>, b: seq<set<string>>, c: seq<set<string>>, strs: seq<string>,
                       nBits: nat, x: set<nat>, y: set<nat>)
    requires Deposited(a, b, strs, nBits, x) && Deposited(b, c, strs, nBits, y)
    ensures Deposited(a, c, strs, nBits, x + y)
  {
    forall i | 0 <= i < |c| ensures c[i] == a[i] + Deposit(strs, nBits, x + y, |a| - 1, i) {
      DepositUnion(strs, nBits, x, y, |a| - 1, i);
    }
  }

  /** Adding value v's string to bucket `v & mask` extends a deposit of
      `done` to one of `done + [v]`. */
  lemma DepositedStep(a: seq<set<string>>, pre: seq<set<string>>, after: seq<set<string>>, strs: seq<string>,
                      nBits: nat, done: seq<nat>, v: nat, r: nat)
    requires Deposited(a, pre, strs, nBits, Elems(done)) && |a| >= 1
    requires StrIndexOf(v, nBits) < |strs| && r == BucketOf(v, |a| - 1) && r < |pre|
    requires after == pre[r := pre[r] + {strs[StrIndexOf(v, nBits)]}]
    ensures Deposited(a, after, strs, nBits, Elems(done + [v]))
  {
    var str := strs[StrIndexOf(v, nBits)];
    forall b | 0 <= b < |after| ensures after[b] == a[b] + Deposit(strs, nBits, Elems(done + [v]), |a| - 1, b) {
      DepositOne(strs, nBits, done, v, |a| - 1, b);
      var oldB := Deposit(strs, nBits, Elems(done), |a| - 1, b);
      assert pre[b] == a[b] + oldB;
      if b == r {
        UnionAssoc(a[b], oldB, {str});
      }
    }
  }

  lemma HostValuesStep(ix: Index, visited: seq<string>, hn: string)
    requires HeadsOk(ix.hosts, ix.slots)
    ensures HostValues(ix, visited + [hn]) == HostValues(ix, visited) + KeyValues(ix.hosts, ix.slots, hn)
  {
    assert (visited + [hn])[..|visited|] == visited;
  }

  lemma RegexValuesStep(ix: Index, seen: set<string>, restr: string, hostname: string,
                        test: (string, string) -> bool)
    requires HeadsOk(ix.regexes, ix.slots) && restr in ix.regexes
    ensures RegexValues(ix, seen + {restr}, hostname, test) ==
              RegexValues(ix, seen, hostname, test)
                + (if test(Pattern(restr), hostname) then Elems(Chain(ix.slots, ix.regexes[restr])) else {})
  {
  }

  lemma RegexValuesEmpty(ix: Index, hostname: string, test: (string, string) -> bool)
    requires HeadsOk(ix.regexes, ix.slots)
    ensures RegexValues(ix, {}, hostname, test) == {}
  {
  }

  /** A store leaves every earlier pair's value where it was, so the values
      of the table stay decodable when the new value is. */
  lemma DecodableGrow(slots: seq<nat>, strs: seq<string>, slots': seq<nat>, strs': seq<string>, nBits: nat)
    requires Decodable(slots, strs, nBits) && |slots| % 2 == 0
    requires |strs| <= |strs'| && |slots'| == |slots| + 2
    requires forall i: nat :: IsSlot(slots, i) ==> slots'[i] == slots[i]
    requires StrIndexOf(slots'[|slots|], nBits) < |strs'|
    ensures Decodable(slots', strs', nBits)
  {
    forall i: nat | IsSlot(slots', i) ensures StrIndexOf(slots'[i], nBits) < |strs'| {
      if i != |slots| {
        assert IsSlot(slots, i);
      }
    }
  }

  /** Appending a decodable value to a decodable arena keeps it decodable. */
  lemma DecodableAppend(slots: seq<nat>, strs: seq<string>, strs': seq<string>, v: nat, nBits: nat)
    requires Decodable(slots, strs, nBits) && |slots| % 2 == 0
    requires |strs| <= |strs'| && StrIndexOf(v, nBits) < |strs'|
    ensures Decodable(slots + [v, 0], strs', nBits)
  {
    DecodableGrow(slots, strs, slots + [v, 0], strs', nBits);
  }

  /** Linking a decodable value behind pair t keeps the arena decodable:
      only an odd position, a next pointer, is overwritten. */
  lemma DecodableLink(slots: seq<nat>, strs: seq<string>, strs': seq<string>, t: nat, v: nat, nBits: nat)
    requires Decodable(slots, strs, nBits) && |slots| % 2 == 0 && IsSlot(slots, t)
    requires |strs| <= |strs'| && StrIndexOf(v, nBits) < |strs'|
    ensures Decodable(Link(slots, t, v), strs', nBits)
  {
    var s := Link(slots, t, v);
    assert s[|slots|] == v;
    forall i: nat | IsSlot(slots, i) ensures s[i] == slots[i] {
      assert i != t + 1;
    }
    DecodableGrow(slots, strs, s, strs', nBits);
  }

  /** Linking value v behind the tail of hn's chain keeps every chain
      valid and appends v to what hn stores, and to nothing else. */
  lemma LinkKeeps(heads: map<Key, nat>, hosts: map<string, nat>, regexes: map<string, nat>,
                  slots: seq<nat>, hn: string, iHn: nat, v: nat)
    requires Tied(heads, hosts, regexes) && ChainsValid(heads, slots)
    requires HeadOf(hosts, regexes, hn) == Some(iHn)
    ensures IsSlot(slots, iHn)
    ensures var s := Link(slots, Tail(slots, iHn), v);
            && ChainsValid(heads, s) && HeadsOk(hosts, s) && HeadsOk(regexes, s)
            && Arena.Contents(heads, s) == Extended(Arena.Contents(heads, slots), KeyOf(hn), v)
  {
    TiedLookup(heads, hosts, regexes, hn);
    StoreExistingKey(heads, slots, KeyOf(hn), v);
    assert KeyOf(hn) in Arena.Contents(heads, slots);
    TiedHeadsOk(heads, hosts, regexes, Link(slots, Tail(slots, iHn), v));
  }

  // ---------------------------------------------------------------------
  // The database object

  class HostnameDB {
    const nBits: Width
    /** `this.timer !== undefined`: a deferred reclamation is scheduled. */
    var timerPending: bool
    /** The reverse map of the string table, used only to reuse an index. */
    var strToIdMap: map<string, nat>
    var hostnameToSlotIdMap: map<string, nat>
    var regexToSlotIdMap: map<string, nat>
    /** The slot arena: pair i is `(hostnameSlots[i], hostnameSlots[i + 1])`. */
    var hostnameSlots: seq<nat>
    var strSlots: seq<string>
    var size: nat

    /** Both key indexes as one map from `Key` to chain head. */
    ghost var heads: map<Key, nat>

    ghost function Model(): Index
      reads this
    {
      Index(hostnameToSlotIdMap, regexToSlotIdMap, hostnameSlots, strSlots)
    }

    ghost predicate Valid()
      reads this
    {
      && Chained()
      && Decodable(hostnameSlots, strSlots, nBits)
      && InternValid(strToIdMap, strSlots)
      && size == |hostnameSlots| / 2
    }

    /** A valid database holds a valid index. */
    lemma ValidIndex()
      requires Valid()
      ensures IndexValid(Model(), nBits) && heads == Heads(hostnameToSlotIdMap, regexToSlotIdMap)
    {
      TiedUnique(heads, Heads(hostnameToSlotIdMap, regexToSlotIdMap), hostnameToSlotIdMap, regexToSlotIdMap);
    }

    /** What each key stores, in insertion order. */
    ghost function Contents(): map<Key, seq<nat>>
      reads this`heads, this`hostnameSlots, this`hostnameToSlotIdMap, this`regexToSlotIdMap
      requires Chained()
    {
      Arena.Contents(heads, hostnameSlots)
    }

    /** The string index `store(_, _, s)` uses: the interned one, or the next free one. */
    function NextStrIndex(s: string): nat
      reads this`strToIdMap, this`strSlots
    {
      if s in strToIdMap then strToIdMap[s] else |strSlots|
    }

    constructor (nBits: Width, selfie: Option<Selfie> := None)
      ensures this.nBits == nBits && !timerPending && strToIdMap == map[]
      ensures selfie.None? ==> Model() == Index(map[], map[], [], []) && size == 0
      ensures selfie.Some? ==> Model() == Restore(selfie.value, map[]) && size == selfie.value.size
      ensures Valid() <==> selfie.None? || SelfieValid(selfie.value, nBits)
    {
      this.nBits := nBits;
      timerPending := false;
      strToIdMap := map[];
      hostnameToSlotIdMap := map[];
      regexToSlotIdMap := map[];
      hostnameSlots := [];
      strSlots := [];
      size := 0;
      heads := map[];
      new;
      FromSelfie(selfie);
    }

    /** Appends s's packed value to the chain of key hn, interning s. */
    method Store(hn: string, bits: nat, s: string)
      requires Valid()
      requires bits < Pow2(nBits)
      requires Encode(NextStrIndex(s), bits, nBits) < WORD
      modifies this
      ensures Valid()
      ensures size == old(size) + 1
      ensures old(s in strToIdMap) ==>
                strSlots == old(strSlots) && strToIdMap == old(strToIdMap) && timerPending == old(timerPending)
      ensures old(s !in strToIdMap) ==>
                strSlots == old(strSlots) + [s] && strToIdMap == old(strToIdMap)[s := old(|strSlots|)] && timerPending
      ensures var v := Encode(old(NextStrIndex(s)), bits, nBits);
              && v < WORD
              && StrIndexOf(v, nBits) < |strSlots| && strSlots[StrIndexOf(v, nBits)] == s
              && BucketOf(v, Pow2(nBits) - 1) == bits
              && Contents() == Extended(old(Contents()), KeyOf(hn), v)
      ensures var v := Encode(old(NextStrIndex(s)), bits, nBits);
              var h := old(HeadOf(hostnameToSlotIdMap, regexToSlotIdMap, hn));
              && (h.None? ==> hostnameSlots == old(hostnameSlots) + [v, 0])
              && (h.Some? ==> hostnameSlots == old(Link(hostnameSlots, Tail(hostnameSlots, h.value), v)))
      ensures (hostnameToSlotIdMap, regexToSlotIdMap)
              == old(Recorded(hostnameToSlotIdMap, regexToSlotIdMap, hn, |hostnameSlots|))
    {
      ghost var c0, h0, i0 := Contents(), HeadOf(hostnameToSlotIdMap, regexToSlotIdMap, hn), NextStrIndex(s);
      size := size + 1;
      var iStr := Intern(s);
      assert iStr == i0;
      assert Contents() == c0 && HeadOf(hostnameToSlotIdMap, regexToSlotIdMap, hn) == h0;
      assert hostnameToSlotIdMap == old(hostnameToSlotIdMap) && regexToSlotIdMap == old(regexToSlotIdMap);
      assert hostnameSlots == old(hostnameSlots);
      EncodeRoundTrip(iStr, bits, nBits);
      var strId := Encode(iStr, bits, nBits);
      assert StrIndexOf(strId, nBits) == iStr && BucketOf(strId, Pow2(nBits) - 1) == bits;
      Place(hn, strId);
      assert strId == Encode(old(NextStrIndex(s)), bits, nBits);
      assert Valid();
    }

    /** The second half of `store`: the packed value strId goes at the end
        of the chain of key hn, a new chain when hn has none. */
    method Place(hn: string, strId: nat)
      requires Chained() && Decodable(hostnameSlots, strSlots, nBits) && StrIndexOf(strId, nBits) < |strSlots|
      modifies this`hostnameSlots, this`hostnameToSlotIdMap, this`regexToSlotIdMap, this`heads
      ensures Chained() && Decodable(hostnameSlots, strSlots, nBits)
      ensures |hostnameSlots| == old(|hostnameSlots|) + 2
      ensures Contents() == Extended(old(Contents()), KeyOf(hn), strId)
      ensures var h := old(HeadOf(hostnameToSlotIdMap, regexToSlotIdMap, hn));
              && (h.None? ==> hostnameSlots == old(hostnameSlots) + [strId, 0])
              && (h.Some? ==> hostnameSlots == old(Link(hostnameSlots, Tail(hostnameSlots, h.value), strId)))
      ensures (hostnameToSlotIdMap, regexToSlotIdMap)
              == old(Recorded(hostnameToSlotIdMap, regexToSlotIdMap, hn, |hostnameSlots|))
    {
      ghost var slots0 := hostnameSlots;
      var h := HeadOf(hostnameToSlotIdMap, regexToSlotIdMap, hn);
      if h.None? {
        AddKey(hn, strId);
        DecodableAppend(slots0, strSlots, strSlots, strId, nBits);
      } else {
        LinkValue(hn, h.value, strId);
        DecodableLink(slots0, strSlots, strSlots, Tail(slots0, h.value), strId, nBits);
      }
    }

    /** The arena part of `Valid`: both key indexes agree with `heads`, and
        every chain is well formed and owned by one key. */
    ghost predicate Chained()
      reads this`heads, this`hostnameSlots, this`hostnameToSlotIdMap, this`regexToSlotIdMap
    {
      && Tied(heads, hostnameToSlotIdMap, regexToSlotIdMap)
      && ChainsValid(heads, hostnameSlots)
      && HeadsOk(hostnameToSlotIdMap, hostnameSlots) && HeadsOk(regexToSlotIdMap, hostnameSlots)
    }

    /** The first half of `store`: the index of s in the string table, which
        grows by s when the reverse map does not know it; a new string
        schedules the reclamation of the reverse map. */
    method Intern(s: string) returns (iStr: nat)
      requires InternValid(strToIdMap, strSlots)
      modifies this`strSlots, this`strToIdMap, this`timerPending
      ensures iStr == old(NextStrIndex(s)) && iStr < |strSlots| && strSlots[iStr] == s
      ensures old(s in strToIdMap) ==>
                strSlots == old(strSlots) && strToIdMap == old(strToIdMap) && timerPending == old(timerPending)
      ensures old(s !in strToIdMap) ==>
                strSlots == old(strSlots) + [s] && strToIdMap == old(strToIdMap)[s := old(|strSlots|)] && timerPending
      ensures InternValid(strToIdMap, strSlots)
    {
      if s in strToIdMap {
        iStr := strToIdMap[s];
      } else {
        iStr := |strSlots|;
        strSlots := strSlots + [s];
        strToIdMap := strToIdMap[s := iStr];
        if !timerPending {
          CollectGarbage(true);
        }
      }
    }

    /** The second half of `store` for a key without a chain: a new
        one-pair chain, its head recorded in the index the key's first
        character picks. */
    method AddKey(hn: string, strId: nat)
      requires Chained() && HeadOf(hostnameToSlotIdMap, regexToSlotIdMap, hn).None?
      modifies this`hostnameSlots, this`hostnameToSlotIdMap, this`regexToSlotIdMap, this`heads
      ensures Chained()
      ensures Arena.Contents(heads, hostnameSlots) == Extended(old(Arena.Contents(heads, hostnameSlots)), KeyOf(hn), strId)
      ensures hostnameSlots == old(hostnameSlots) + [strId, 0]
      ensures (hostnameToSlotIdMap, regexToSlotIdMap)
              == old(Recorded(hostnameToSlotIdMap, regexToSlotIdMap, hn, |hostnameSlots|))
    {
      TiedLookup(heads, hostnameToSlotIdMap, regexToSlotIdMap, hn);
      TiedAdd(heads, hostnameToSlotIdMap, regexToSlotIdMap, hn, |hostnameSlots|);
      StoreNewKey(heads, hostnameSlots, KeyOf(hn), strId);
      ExtendedNew(Arena.Contents(heads, hostnameSlots), KeyOf(hn), strId);
      if !IsRegexKey(hn) {
        hostnameToSlotIdMap := hostnameToSlotIdMap[hn := |hostnameSlots|];
      } else {
        regexToSlotIdMap := regexToSlotIdMap[hn := |hostnameSlots|];
      }
      heads := heads[KeyOf(hn) := |hostnameSlots|];
      hostnameSlots := hostnameSlots + [strId, 0];
      TiedHeadsOk(heads, hostnameToSlotIdMap, regexToSlotIdMap, hostnameSlots);
    }

    /** The tail walk of `store`: follows the next pointers from head until
        the one that is 0. */
    method TailOf(head: nat) returns (t: nat)
      requires WellFormed(hostnameSlots) && IsSlot(hostnameSlots, head)
      ensures t == Tail(hostnameSlots, head)
      ensures IsSlot(hostnameSlots, t) && hostnameSlots[t + 1] == 0
    {
      t := head;
      while hostnameSlots[t + 1] != 0
        invariant IsSlot(hostnameSlots, t)
        invariant Tail(hostnameSlots, t) == Tail(hostnameSlots, head)
        decreases |hostnameSlots| - t
      {
        assert NextOk(hostnameSlots, t);
        t := hostnameSlots[t + 1];
      }
    }

    /** The second half of `store` for a key with a chain from head iHn:
        the walk to the chain's tail, which gets the new pair linked behind
        it. */
    method LinkValue(hn: string, iHn: nat, strId: nat)
      requires Chained() && HeadOf(hostnameToSlotIdMap, regexToSlotIdMap, hn) == Some(iHn)
      modifies this`hostnameSlots
      ensures Chained()
      ensures Arena.Contents(heads, hostnameSlots) == Extended(old(Arena.Contents(heads, hostnameSlots)), KeyOf(hn), strId)
      ensures IsSlot(old(hostnameSlots), iHn)
      ensures hostnameSlots == old(Link(hostnameSlots, Tail(hostnameSlots, iHn), strId))
    {
      ghost var slots := hostnameSlots;
      LinkKeeps(heads, hostnameToSlotIdMap, regexToSlotIdMap, slots, hn, iHn, strId);
      var i := TailOf(iHn);
      hostnameSlots := Link(hostnameSlots, i, strId);
      assert hostnameSlots == Link(slots, Tail(slots, iHn), strId);
    }

    /** Empties every structure; a scheduled reclamation stays scheduled. */
    method Clear()
      modifies this
      ensures Model() == Index(map[], map[], [], []) && strToIdMap == map[] && size == 0
      ensures timerPending == old(timerPending)
      ensures Valid()
    {
      hostnameToSlotIdMap := map[];
      regexToSlotIdMap := map[];
      hostnameSlots := [];
      strSlots := [];
      strToIdMap := map[];
      size := 0;
      heads := map[];
    }

    /** `collectGarbage(false)` cancels any scheduled reclamation and empties
        the reverse map now; `collectGarbage(true)` schedules one unless one
        is pending. The durable state is never touched. */
    method CollectGarbage(later: bool := false)
      modifies this`timerPending, this`strToIdMap
      ensures !later ==> !timerPending && strToIdMap == map[]
      ensures later ==> timerPending && strToIdMap == old(strToIdMap)
      ensures Model() == old(Model()) && size == old(size) && heads == old(heads)
      ensures old(Valid()) ==> Valid()
    {
      if !later {
        timerPending := false;
        strToIdMap := map[];
        return;
      }
      if timerPending {
        return;
      }
      timerPending := true;
    }

    /** The idle callback a scheduled reclamation runs. */
    method Reclaim()
      requires timerPending
      modifies this`timerPending, this`strToIdMap
      ensures !timerPending && strToIdMap == map[]
      ensures Model() == old(Model()) && size == old(size) && heads == old(heads)
      ensures old(Valid()) ==> Valid()
    {
      timerPending := false;
      strToIdMap := map[];
    }

    /** The do-while walk of one chain: each value's string goes into the
        bucket its low bits pick. */
    method DepositChain(head: nat, out: array<set<string>>)
      requires WellFormed(hostnameSlots) && Decodable(hostnameSlots, strSlots, nBits)
      requires IsSlot(hostnameSlots, head) && out.Length >= 1
      modifies out
      ensures Deposited(old(out[..]), out[..], strSlots, nBits, Elems(Chain(hostnameSlots, head)))
    {
      var mask := out.Length - 1;
      var iHn := head;
      ghost var done: seq<nat> := [];
      ghost var start := out[..];
      DepositedNone(start, strSlots, nBits);
      while true
        invariant IsSlot(hostnameSlots, iHn)
        invariant done + Chain(hostnameSlots, iHn) == Chain(hostnameSlots, head)
        invariant start == old(out[..]) && |start| == out.Length
        invariant Deposited(start, out[..], strSlots, nBits, Elems(done))
        decreases |hostnameSlots| - iHn
      {
        var strId := hostnameSlots[iHn];
        var str := strSlots[StrIndexOf(strId, nBits)];
        ghost var pre := out[..];
        var r := BucketOf(strId, mask);
        out[r] := out[r] + {str};
        DepositedStep(start, pre, out[..], strSlots, nBits, done, strId, r);
        Unfold(hostnameSlots, iHn);
        var next := hostnameSlots[iHn + 1];
        if next != 0 {
          AppendAssoc(done, [strId], Chain(hostnameSlots, next));
        }
        done := done + [strId];
        if next == 0 {
          break;
        }
        iHn := next;
      }
    }

    /** `retrieve(hostname, out, modifiers = 0)`: adds to each bucket of out
        the strings of the values found for hostname; `test(pattern, hostname)`
        stands for `new RegExp(pattern).test(hostname)` and comes before
        modifiers so that modifiers keeps its default. */
    method Retrieve(hostname: string, out: array<set<string>>, test: (string, string) -> bool,
                    modifiers: int := 0)
      requires Walkable(Model()) && Decodable(hostnameSlots, strSlots, nBits) && IsPowerOfTwo(out.Length)
      modifies out
      ensures Deposited(old(out[..]), out[..], strSlots, nBits, Retrieved(Model(), hostname, modifiers, test))
    {
      ghost var start := out[..];
      DepositHostnames(hostname, out, modifiers);
      if modifiers != 0 && modifiers != 3 {
        return;
      }
      ghost var mid := out[..];
      DepositRegexes(hostname, out, test);
      DepositedTrans(start, mid, out[..], strSlots, nBits,
                     HostValues(Model(), Probes(hostname, modifiers)),
                     RegexValues(Model(), regexToSlotIdMap.Keys, hostname, test));
    }

    /** The `for (;;)` loop of `retrieve`: the chains of the hostname keys it
        looks up, most specific first. */
    method DepositHostnames(hostname: string, out: array<set<string>>, modifiers: int)
      requires Walkable(Model()) && Decodable(hostnameSlots, strSlots, nBits) && out.Length >= 1
      modifies out
      ensures Deposited(old(out[..]), out[..], strSlots, nBits, HostValues(Model(), Probes(hostname, modifiers)))
    {
      ghost var probes := Probes(hostname, modifiers);
      var hn := hostname;
      if modifiers == 2 {
        hn := "";
      }
      ghost var start := out[..];
      DepositedNone(start, strSlots, nBits);
      ghost var visited: seq<string> := [];
      while true
        invariant visited + Walk(hn, modifiers) == probes
        invariant start == old(out[..])
        invariant Deposited(start, out[..], strSlots, nBits, HostValues(Model(), visited))
        decreases |hn|
      {
        DepositHostname(hn, out, start, visited);
        if hn == "" {
          WalkLast(visited, hn, modifiers, probes);
          visited := visited + [hn];
          break;
        }
        var pos := IndexOf(hn, '.');
        var next: string;
        if pos == -1 {
          if modifiers == 1 {
            WalkLast(visited, hn, modifiers, probes);
            visited := visited + [hn];
            break;
          }
          next := "";
        } else {
          next := hn[pos + 1..];
        }
        WalkNext(visited, hn, modifiers, probes, pos, next);
        visited := visited + [hn];
        hn := next;
      }
    }

    /** One lookup of the suffix walk: the chain of hostname key hn, if
        any, joins what the keys visited before it deposited since start. */
    method DepositHostname(hn: string, out: array<set<string>>, ghost start: seq<set<string>>,
                           ghost visited: seq<string>)
      requires Walkable(Model()) && Decodable(hostnameSlots, strSlots, nBits) && out.Length >= 1
      requires Deposited(start, out[..], strSlots, nBits, HostValues(Model(), visited))
      modifies out
      ensures Deposited(start, out[..], strSlots, nBits, HostValues(Model(), visited + [hn]))
    {
      ghost var before := out[..];
      if hn in hostnameToSlotIdMap {
        DepositChain(hostnameToSlotIdMap[hn], out);
      } else {
        DepositedNone(before, strSlots, nBits);
      }
      HostValuesStep(Model(), visited, hn);
      DepositedTrans(start, before, out[..], strSlots, nBits, HostValues(Model(), visited),
                     KeyValues(hostnameToSlotIdMap, hostnameSlots, hn));
    }

    /** The regex phase of `retrieve`: the chain of every regex key whose
        pattern matches the hostname. */
    method DepositRegexes(hostname: string, out: array<set<string>>, test: (string, string) -> bool)
      requires Walkable(Model()) && Decodable(hostnameSlots, strSlots, nBits) && out.Length >= 1
      modifies out
      ensures Deposited(old(out[..]), out[..], strSlots, nBits,
                        RegexValues(Model(), regexToSlotIdMap.Keys, hostname, test))
    {
      ghost var ix := Model();
      ghost var start := out[..];
      var rest := regexToSlotIdMap.Keys;
      ghost var seen: set<string> := {};
      RegexValuesEmpty(ix, hostname, test);
      DepositedNone(start, strSlots, nBits);
      while rest != {}
        invariant rest + seen == regexToSlotIdMap.Keys && rest !! seen
        invariant start == old(out[..])
        invariant Deposited(start, out[..], strSlots, nBits, RegexValues(ix, seen, hostname, test))
        decreases |rest|
      {
        var restr :| restr in rest;
        MoveOne(rest, seen, restr, regexToSlotIdMap.Keys);
        rest := rest - {restr};
        ghost var before := out[..];
        ghost var found: set<nat> := {};
        if test(Pattern(restr), hostname) {
          DepositChain(regexToSlotIdMap[restr], out);
          found := Elems(Chain(hostnameSlots, regexToSlotIdMap[restr]));
        } else {
          DepositedNone(before, strSlots, nBits);
        }
        RegexValuesStep(ix, seen, restr, hostname, test);
        DepositedTrans(start, before, out[..], strSlots, nBits, RegexValues(ix, seen, hostname, test), found);
        seen := seen + {restr};
      }
    }

    /** The snapshot: both indexes as pair lists, the arena, the strings and the size. */
    method ToSelfie() returns (selfie: Selfie)
      ensures ListsEntries(selfie.hostnameToSlotIdMap, hostnameToSlotIdMap)
      ensures selfie.regexToSlotIdMap.Some? && ListsEntries(selfie.regexToSlotIdMap.value, regexToSlotIdMap)
      ensures selfie.hostnameSlots == hostnameSlots && selfie.strSlots == strSlots && selfie.size == size
      ensures forall prev :: Restore(selfie, prev) == Model()
    {
      var hosts := PairsOf(hostnameToSlotIdMap);
      var regexes := PairsOf(regexToSlotIdMap);
      RestoreEntries(hosts, hostnameToSlotIdMap);
      RestoreEntries(regexes, regexToSlotIdMap);
      selfie := Selfie(hosts, Some(regexes), hostnameSlots, strSlots, size);
    }

    /** Installs a snapshot; the reverse map and the timer are left alone. */
    method FromSelfie(selfie: Option<Selfie>)
      modifies this
      ensures selfie.None? ==> Model() == old(Model()) && size == old(size) && heads == old(heads)
      ensures selfie.Some? ==> Model() == Restore(selfie.value, old(regexToSlotIdMap)) && size == selfie.value.size
      ensures selfie.Some? ==> heads == Heads(hostnameToSlotIdMap, regexToSlotIdMap)
      ensures timerPending == old(timerPending) && strToIdMap == old(strToIdMap)
      ensures selfie.Some? && old(strToIdMap) == map[]
              && (selfie.value.regexToSlotIdMap.Some? || old(regexToSlotIdMap) == map[]) ==>
                (Valid() <==> SelfieValid(selfie.value, nBits))
    {
      if selfie.None? {
        return;
      }
      var sel := selfie.value;
      hostnameToSlotIdMap := MapOfPairs(sel.hostnameToSlotIdMap);
      if sel.regexToSlotIdMap.Some? {
        regexToSlotIdMap := MapOfPairs(sel.regexToSlotIdMap.value);
      }
      hostnameSlots := sel.hostnameSlots;
      strSlots := sel.strSlots;
      size := sel.size;
      heads := Heads(hostnameToSlotIdMap, regexToSlotIdMap);
    }
  }

  /** The last step of the suffix walk: the generic key, or under modifiers
      1 a key without a dot. */
  lemma WalkLast(visited: seq<string>, hn: string, modifiers: int, probes: seq<string>)
    requires visited + Walk(hn, modifiers) == probes
    requires hn == "" || (IndexOf(hn, '.') == -1 && modifiers == 1)
    ensures visited + [hn] == probes
  {
  }

  /** A step of the suffix walk that goes on to `next`: what follows the
      first dot, or the generic key. */
  lemma WalkNext(visited: seq<string>, hn: string, modifiers: int, probes: seq<string>, pos: int, next: string)
    requires visited + Walk(hn, modifiers) == probes && hn != "" && pos == IndexOf(hn, '.')
    requires pos == -1 ==> modifiers != 1 && next == ""
    requires pos >= 0 ==> next == hn[pos + 1..]
    ensures (visited + [hn]) + Walk(next, modifiers) == probes
  {
    WalkStep(hn, modifiers, pos, next);
    AppendAssoc(visited, [hn], Walk(next, modifiers));
  }

  /** Solver hint: moving one key from the keys still to visit to those
      visited keeps the two a partition of all keys. */
  lemma MoveOne<T>(rest: set<T>, seen: set<T>, x: T, all: set<T>)
    requires rest + seen == all && rest !! seen && x in rest
    ensures (rest - {x}) + (seen + {x}) == all && (rest - {x}) !! (seen + {x})
  {
  }

  /** `Array.from(map)`: the entries of m as (key, value) pairs. */
  method PairsOf(m: map<string, nat>) returns (ps: seq<(string, nat)>)
    ensures ListsEntries(ps, m)
  {
    ps := [];
    var rest := m.Keys;
    while rest != {}
      invariant rest <= m.Keys
      invariant DistinctKeys(ps)
      invariant forall i :: 0 <= i < |ps| ==> ps[i].0 in m && m[ps[i].0] == ps[i].1 && ps[i].0 !in rest
      invariant forall k :: k in m && k !in rest ==> (k, m[k]) in ps
      decreases |rest|
    {
      var k :| k in rest;
      ps := ps + [(k, m[k])];
      rest := rest - {k};
    }
  }

  /** Restoring a database from its own snapshot gives a database with the
      same index, arena and strings, so every retrieval answers the same. */
  method Reload(db: HostnameDB) returns (copy: HostnameDB)
    requires db.Valid()
    ensures fresh(copy) && copy.Valid() && copy.nBits == db.nBits
    ensures copy.Model() == db.Model() && copy.size == db.size
  {
    db.ValidIndex();
    var selfie := db.ToSelfie();
    copy := new HostnameDB(db.nBits, Some(selfie));
  }
}
