/** The keys `retrieve` looks up for a hostname: the hostname itself, then
    each suffix after a `.`, then the generic key `""`, as the `modifiers`
    argument selects. */
module SuffixWalk {

  /** `s.indexOf(c)`: the first position of c in s, or -1 when there is none. */
  function IndexOf(s: string, c: char): (r: int)
    ensures -1 <= r < |s|
    ensures r == -1 ==> c !in s
    ensures r >= 0 ==> s[r] == c && forall j :: 0 <= j < r ==> s[j] != c
  {
    if |s| == 0 then -1
    else if s[0] == c then 0
    else
      var r := IndexOf(s[1..], c);
      if r == -1 then -1 else r + 1
  }

  /** The keys the `for (;;)` loop of `retrieve` looks up when it starts at
      `hn`: each one is followed by the part after its first `.`; a key
      without a `.` is followed by `""` unless modifiers is 1; `""` ends it. */
  function Walk(hn: string, modifiers: int): (w: seq<string>)
    ensures |w| >= 1 && w[0] == hn
    decreases |hn|
  {
    if hn == "" then [hn]
    else
      var pos := IndexOf(hn, '.');
      if pos == -1 then
        if modifiers == 1 then [hn] else [hn] + Walk("", modifiers)
      else
        [hn] + Walk(hn[pos + 1..], modifiers)
  }

  /** The keys `retrieve(hostname, out, modifiers)` looks up, in order:
      modifiers 2 starts at the generic key. */
  function Probes(hostname: string, modifiers: int): seq<string>
  {
    Walk(if modifiers == 2 then "" else hostname, modifiers)
  }

  /** p is the hostname itself or what follows one of its dots. */
  ghost predicate DomainSuffix(p: string, hn: string)
  {
    p == hn || exists i :: 0 <= i < |hn| && hn[i] == '.' && p == hn[i + 1..]
  }

  /** Which keys a retrieval looks up, stated without the loop. */
  ghost predicate Visits(hostname: string, modifiers: int, p: string)
  {
    if modifiers == 2 then p == ""
    else DomainSuffix(p, hostname) || (modifiers != 1 && p == "")
  }

  /** A suffix of the part after a dot of hn is a suffix of hn. */
  lemma SuffixOfTail(hn: string, pos: nat, p: string)
    requires pos < |hn| && hn[pos] == '.'
    requires DomainSuffix(p, hn[pos + 1..])
    ensures DomainSuffix(p, hn)
  {
    var tail := hn[pos + 1..];
    if p == tail {
      assert hn[pos] == '.' && p == hn[pos + 1..];
    } else {
      var k :| 0 <= k < |tail| && tail[k] == '.' && p == tail[k + 1..];
      var i := k + pos + 1;
      assert tail[k + 1..] == hn[i + 1..];
      assert hn[i] == '.' && p == hn[i + 1..];
    }
  }

  /** Any suffix of hn but hn itself is a suffix of the part after its
      first dot. */
  lemma TailOfSuffix(hn: string, pos: nat, p: string)
    requires pos < |hn| && hn[pos] == '.' && forall j :: 0 <= j < pos ==> hn[j] != '.'
    requires DomainSuffix(p, hn) && p != hn
    ensures DomainSuffix(p, hn[pos + 1..])
  {
    var tail := hn[pos + 1..];
    var i :| 0 <= i < |hn| && hn[i] == '.' && p == hn[i + 1..];
    if i > pos {
      var k := i - pos - 1;
      assert tail[k + 1..] == hn[i + 1..];
      assert tail[k] == '.' && p == tail[k + 1..];
    }
  }

  /** The suffixes of hn are hn itself and the suffixes of what follows its
      first dot. */
  lemma SuffixStep(hn: string, pos: nat, p: string)
    requires pos < |hn| && hn[pos] == '.' && forall j :: 0 <= j < pos ==> hn[j] != '.'
    ensures DomainSuffix(p, hn) <==> p == hn || DomainSuffix(p, hn[pos + 1..])
  {
    if DomainSuffix(p, hn[pos + 1..]) {
      SuffixOfTail(hn, pos, p);
    }
    if DomainSuffix(p, hn) && p != hn {
      TailOfSuffix(hn, pos, p);
    }
  }

  /** A hostname without dots has no suffix but itself. */
  lemma NoDotSuffix(hn: string, p: string)
    requires '.' !in hn
    ensures DomainSuffix(p, hn) <==> p == hn
  {
  }

  /** The walk from hn visits exactly hn's domain suffixes, plus the generic
      key `""` unless modifiers is 1. */
  lemma {:induction false} WalkMembers(hn: string, modifiers: int, p: string)
    ensures p in Walk(hn, modifiers) <==> DomainSuffix(p, hn) || (modifiers != 1 && p == "")
    decreases |hn|
  {
    if hn == "" {
      NoDotSuffix(hn, p);
    } else {
      var pos := IndexOf(hn, '.');
      var w := Walk(hn, modifiers);
      if pos == -1 {
        NoDotSuffix(hn, p);
        if modifiers != 1 {
          assert Walk("", modifiers) == [""];
          assert w == [hn, ""];
        } else {
          assert w == [hn];
        }
      } else {
        var rest := Walk(hn[pos + 1..], modifiers);
        assert w == [hn] + rest;
        assert p in w <==> p == hn || p in rest;
        SuffixStep(hn, pos, p);
        WalkMembers(hn[pos + 1..], modifiers, p);
      }
    }
  }

  /** One step of the walk from a non-empty key: the key itself, then the
      walk from what follows its first dot, or from `""` when it has none. */
  lemma WalkStep(hn: string, modifiers: int, pos: int, next: string)
    requires hn != "" && pos == IndexOf(hn, '.')
    requires pos == -1 ==> modifiers != 1 && next == ""
    requires pos >= 0 ==> next == hn[pos + 1..]
    ensures Walk(hn, modifiers) == [hn] + Walk(next, modifiers)
  {
  }

  /** The keys a retrieval looks up are exactly those `Visits` names. */
  lemma ProbesMembers(hostname: string, modifiers: int, p: string)
    ensures p in Probes(hostname, modifiers) <==> Visits(hostname, modifiers, p)
  {
    if modifiers == 2 {
      assert Probes(hostname, modifiers) == [""];
    } else {
      WalkMembers(hostname, modifiers, p);
    }
  }

  /** Unless modifiers is 1, the walk ends with the generic key. */
  lemma {:induction false} WalkEndsGeneric(hn: string, modifiers: int)
    requires modifiers != 1
    ensures Walk(hn, modifiers)[|Walk(hn, modifiers)| - 1] == ""
    decreases |hn|
  {
    if hn != "" {
      var pos := IndexOf(hn, '.');
      if pos == -1 {
        WalkStep(hn, modifiers, pos, "");
        assert Walk("", modifiers) == [""];
        assert Walk(hn, modifiers) == [hn, ""];
      } else {
        var next := hn[pos + 1..];
        WalkStep(hn, modifiers, pos, next);
        WalkEndsGeneric(next, modifiers);
        var rest := Walk(next, modifiers);
        assert ([hn] + rest)[|rest|] == rest[|rest| - 1];
      }
    }
  }

  /** Under modifiers 1 the generic key is looked up only for the empty
      hostname or one that ends in a dot, whose last suffix is empty. */
  lemma SpecificOnlyGeneric(hostname: string)
    ensures "" in Probes(hostname, 1) <==> hostname == "" || hostname[|hostname| - 1] == '.'
  {
    WalkMembers(hostname, 1, "");
    if hostname != "" && hostname[|hostname| - 1] == '.' {
      assert hostname[|hostname| - 1 + 1..] == "";
    }
    if hostname != "" && DomainSuffix("", hostname) {
      var i :| 0 <= i < |hostname| && hostname[i] == '.' && "" == hostname[i + 1..];
      assert i == |hostname| - 1;
    }
  }

  /** The walk depends on modifiers only through "is it 1". */
  lemma {:induction false} WalkSameUnlessSpecific(hn: string, m1: int, m2: int)
    requires (m1 == 1) == (m2 == 1)
    ensures Walk(hn, m1) == Walk(hn, m2)
    decreases |hn|
  {
    if hn != "" {
      var pos := IndexOf(hn, '.');
      if pos >= 0 || m1 != 1 {
        var next := if pos == -1 then "" else hn[pos + 1..];
        WalkStep(hn, m1, pos, next);
        WalkStep(hn, m2, pos, next);
        if pos >= 0 {
          WalkSameUnlessSpecific(next, m1, m2);
        }
      }
    }
  }

  /** Modifiers 3 looks up the same hostname keys as modifiers 0, generic
      key included: only modifiers 2 moves the start to `""`. */
  lemma RegexOnlyWalksLikeAll(hostname: string)
    ensures Probes(hostname, 3) == Probes(hostname, 0)
  {
    WalkSameUnlessSpecific(hostname, 3, 0);
  }

  /** Modifiers 2 looks up the generic key and nothing else. */
  lemma GenericOnlyProbes(hostname: string)
    ensures Probes(hostname, 2) == [""]
  {
  }
}
