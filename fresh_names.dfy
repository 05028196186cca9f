/** The two fresh-name generators of the save manager: the lowest unused
    `worldK` for parking the active world, and `name`, `name_1`, `name_2`, …
    for restoring a world from the trash. Both scan a finite set of names
    that already exist in the saves folder. */
module FreshNames {
  import opened Text

  /** `f"world{k}"`. */
  function WorldName(k: nat): string {
    "world" + NatToString(k)
  }

  /** `f"{base}_{i}"`, also the shape of a trashed folder's name. */
  function Suffixed(base: string, i: nat): string {
    base + "_" + NatToString(i)
  }

  lemma WorldNameInjective(a: nat, b: nat)
    requires WorldName(a) == WorldName(b)
    ensures a == b
  {
    assert NatToString(a) == WorldName(a)[5..] == WorldName(b)[5..] == NatToString(b);
    NatToStringInjective(a, b);
  }

  lemma SuffixedInjective(base: string, a: nat, b: nat)
    requires Suffixed(base, a) == Suffixed(base, b)
    ensures a == b
  {
    var n := |base| + 1;
    assert NatToString(a) == Suffixed(base, a)[n..] == Suffixed(base, b)[n..] == NatToString(b);
    NatToStringInjective(a, b);
  }

  /** `k` is the index `get_next_world_name` settles on: `worldK` is free and
      every `world1` … `world(K-1)` is taken. */
  ghost predicate IsLowestFreeWorld(names: set<string>, k: nat) {
    && 1 <= k
    && WorldName(k) !in names
    && forall j :: 1 <= j < k ==> WorldName(j) in names
  }

  /** At most one index is the lowest free one. */
  lemma LowestFreeWorldUnique(names: set<string>, k1: nat, k2: nat)
    requires IsLowestFreeWorld(names, k1) && IsLowestFreeWorld(names, k2)
    ensures k1 == k2
  {
  }

  /** `i` is the suffix `safe_rename` settles on for a taken `base`:
      `base_i` is free and every `base_1` … `base_(i-1)` is taken. */
  ghost predicate IsLowestFreeSuffix(names: set<string>, base: string, i: nat) {
    && 1 <= i
    && Suffixed(base, i) !in names
    && forall j :: 1 <= j < i ==> Suffixed(base, j) in names
  }

  /** `get_next_world_name`: counts up from `world1` until a name is free.
      The loop stops because each taken candidate is a different member of
      the finite set `names`; hence also `k <= |names| + 1`. */
  method NextWorldName(names: set<string>) returns (r: string, ghost k: nat)
    ensures r !in names
    ensures IsLowestFreeWorld(names, k) && r == WorldName(k)
    ensures k <= |names| + 1
  {
    var idx := 1;
    ghost var taken: set<string> := {};
    while WorldName(idx) in names
      invariant 1 <= idx
      invariant taken == set j | 1 <= j < idx :: WorldName(j)
      invariant taken <= names
      invariant |taken| == idx - 1
      decreases names - taken
    {
      var w := WorldName(idx);
      if w in taken {
        var j :| 1 <= j < idx && w == WorldName(j);
        WorldNameInjective(j, idx);
        assert false;
      }
      taken := taken + {w};
      idx := idx + 1;
    }
    SubsetSize(taken, names);
    r, k := WorldName(idx), idx;
  }

  /** The `n`-th name `safe_rename` tries: `base` first, then `base_n`. */
  function Candidate(base: string, n: nat): string {
    if n == 0 then base else Suffixed(base, n)
  }

  lemma CandidateInjective(base: string, a: nat, b: nat)
    requires Candidate(base, a) == Candidate(base, b)
    ensures a == b
  {
    // `base_n` is longer than `base`, so only two suffixed names can clash
    if a != 0 && b != 0 {
      SuffixedInjective(base, a, b);
    }
  }

  /** `safe_rename(dest, base)`: `base` itself when it is free, otherwise
      the first free `base_i` for i = 1, 2, …; `i` is 0 when `base` was
      kept. The result never collides with an existing name. */
  method SafeRename(names: set<string>, base: string) returns (r: string, ghost i: nat)
    ensures r !in names
    ensures base !in names ==> i == 0 && r == base
    ensures base in names ==> IsLowestFreeSuffix(names, base, i) && r == Suffixed(base, i)
    ensures i <= |names|
  {
    var idx := 1;
    r := base;
    ghost var tried: set<string> := {};
    while r in names
      invariant 1 <= idx
      invariant r == Candidate(base, idx - 1)
      invariant tried == set n | 0 <= n < idx - 1 :: Candidate(base, n)
      invariant tried <= names
      invariant |tried| == idx - 1
      decreases names - tried
    {
      if r in tried {
        var n :| 0 <= n < idx - 1 && r == Candidate(base, n);
        CandidateInjective(base, n, idx - 1);
        assert false;
      }
      tried := tried + {r};
      r := Suffixed(base, idx);
      idx := idx + 1;
    }
    SubsetSize(tried, names);
    i := idx - 1;
    if base in names {
      assert i != 0;
      forall j | 1 <= j < i ensures Suffixed(base, j) in names {
        assert Candidate(base, j) in tried;
      }
    }
  }

  /** A subset is no larger than the set that holds it. */
  lemma {:induction false} SubsetSize<T>(a: set<T>, b: set<T>)
    requires a <= b
    ensures |a| <= |b|
    decreases |b|
  {
    if a != {} {
      var x :| x in a;
      SubsetSize(a - {x}, b - {x});
    }
  }
}
