/** The key-peg scorer shared by both pattern representations: black pegs
    are counted position by position, then a greedy pass over the guess
    pairs each remaining guess peg with the first unused secret peg of the
    same colour. Its meaning is the duplicate-aware rule: blacks plus
    whites is the size of the multiset intersection of the two colour
    sequences. */
module KeyPegScoring {
  import opened Outcomes

  /** Number of positions where `s` and `g` hold the same colour. */
  function Exact<T(==)>(s: seq<T>, g: seq<T>): (n: nat)
    requires |s| == |g|
    ensures n <= |s|
    decreases |s|
  {
    if s == [] then 0
    else Exact(s[..|s| - 1], g[..|g| - 1]) + (if s[|s| - 1] == g[|g| - 1] then 1 else 0)
  }

  /** Number of colours the two sequences share, duplicates counted at
      most as often as they occur in both. */
  function Common<T(==)>(s: seq<T>, g: seq<T>): nat
  {
    |multiset(s) * multiset(g)|
  }

  /** The positions below `n` where the colours agree, in increasing order
      (the `g_used` vector). */
  function RightPlaces<T(==)>(s: seq<T>, g: seq<T>, n: nat): (u: seq<nat>)
    requires n <= |s| == |g|
    ensures forall j :: j in u ==> j < n && s[j] == g[j]
    ensures forall j :: 0 <= j < n && s[j] == g[j] ==> j in u
  {
    if n == 0 then [] else RightPlaces(s, g, n - 1) + (if s[n - 1] == g[n - 1] then [n - 1] else [])
  }

  /** The first position at or after `from` holding colour `c` and not yet
      in `used` (the `find` over the secret's positions). */
  function Find<T(==)>(s: seq<T>, c: T, used: seq<nat>, from: nat): (r: Option<nat>)
    ensures r.Some? ==> from <= r.value < |s| && s[r.value] == c && r.value !in used
    ensures r.None? ==> forall j :: from <= j < |s| ==> !(s[j] == c && j !in used)
    decreases |s| - from
  {
    if from >= |s| then None
    else if s[from] == c && from !in used then Some(from)
    else Find(s, c, used, from + 1)
  }

  /** `Find` returns the leftmost candidate position. */
  lemma {:induction false} FindIsFirst<T>(s: seq<T>, c: T, used: seq<nat>, from: nat, j: nat)
    requires Find(s, c, used, from).Some? && from <= j < Find(s, c, used, from).value
    ensures s[j] != c || j in used
    decreases |s| - from
  {
    if j > from {
      FindIsFirst(s, c, used, from + 1, j);
    }
  }

  /** Multiset of the colours of `s` at the positions below `n` that are in `used`. */
  function Used<T>(s: seq<T>, used: seq<nat>, n: nat): multiset<T>
    requires n <= |s|
  {
    if n == 0 then multiset{}
    else Used(s, used, n - 1) + (if n - 1 in used then multiset{s[n - 1]} else multiset{})
  }

  /** Multiset of the colours of `s` at the positions below `n` that are not in `used`. */
  function Unused<T>(s: seq<T>, used: seq<nat>, n: nat): multiset<T>
    requires n <= |s|
  {
    if n == 0 then multiset{}
    else Unused(s, used, n - 1) + (if n - 1 in used then multiset{} else multiset{s[n - 1]})
  }

  /** The scoring loop: returns the black and white peg counts. The white
      count is `s_used.len() - blacks`, which never underflows. */
  method CountPegs<T(==)>(s: seq<T>, g: seq<T>) returns (blacks: nat, whites: nat)
    requires |s| == |g|
    ensures blacks == Exact(s, g)
    ensures blacks + whites == Common(s, g)
  {
    var n := |s|;
    var gUsed := RightPlaces(s, g, n);
    blacks := |gUsed|;
    var sUsed := gUsed;
    ScanStart(s, g);
    for gpos := 0 to n
      invariant Scanned(s, g, gUsed, sUsed, gpos)
      invariant blacks <= |sUsed|
    {
      if gpos !in gUsed {
        var scan := Find(s, g[gpos], sUsed, 0);
        ScanStep(s, g, gUsed, sUsed, gpos);
        if scan.Some? {
          sUsed := sUsed + [scan.value];
        }
      } else {
        ScanSkip(s, g, gUsed, sUsed, gpos);
      }
    }
    ScanEnd(s, g, gUsed, sUsed);
    whites := |sUsed| - blacks;
  }

  /** The invariant of the white pass after `k` guess positions: the
      colours of the used secret positions are exactly the intersection of
      the secret with the guess colours seen so far (all right-place ones
      plus the other ones below `k`), one position per colour. */
  ghost predicate Scanned<T>(s: seq<T>, g: seq<T>, gUsed: seq<nat>, sUsed: seq<nat>, k: nat)
    requires |s| == |g| && k <= |g|
  {
    && Used(s, sUsed, |s|) == multiset(s) * (Used(g, gUsed, |g|) + Unused(g, gUsed, k))
    && |sUsed| == |Used(s, sUsed, |s|)|
  }

  /** After the last guess position every guess colour has been seen. */
  lemma ScanEnd<T>(s: seq<T>, g: seq<T>, gUsed: seq<nat>, sUsed: seq<nat>)
    requires |s| == |g| && Scanned(s, g, gUsed, sUsed, |g|)
    ensures |sUsed| == Common(s, g)
  {
    Split(g, gUsed, |g|);
    assert g[..|g|] == g;
  }

  /** Before the white pass, the used secret colours are those of the
      right-place positions, which both sequences share. */
  lemma ScanStart<T>(s: seq<T>, g: seq<T>)
    requires |s| == |g|
    ensures |RightPlaces(s, g, |s|)| == Exact(s, g)
    ensures Scanned(s, g, RightPlaces(s, g, |s|), RightPlaces(s, g, |s|), 0)
  {
    var n, u := |s|, RightPlaces(s, g, |s|);
    ExactIsRightPlaces(s, g, n);
    assert g[..n] == g;
    RightPlacesUsed(s, g, n);
    UsedAgree(s, g, u, n);
    Split(s, u, n);
    assert s[..n] == s;
    IntersectSub(multiset(s), Used(s, u, n));
  }

  /** A right-place guess position is skipped by the white pass. */
  lemma ScanSkip<T>(s: seq<T>, g: seq<T>, gUsed: seq<nat>, sUsed: seq<nat>, gpos: nat)
    requires |s| == |g| && gpos < |g| && gpos in gUsed
    requires Scanned(s, g, gUsed, sUsed, gpos)
    ensures Scanned(s, g, gUsed, sUsed, gpos + 1)
  {
  }

  /** One step of the white pass keeps the used secret colours equal to
      the intersection of the secret with the guess colours seen so far. */
  lemma ScanStep<T>(s: seq<T>, g: seq<T>, gUsed: seq<nat>, sUsed: seq<nat>, gpos: nat)
    requires |s| == |g| && gpos < |g| && gpos !in gUsed
    requires Scanned(s, g, gUsed, sUsed, gpos)
    ensures Find(s, g[gpos], sUsed, 0).Some? ==> Scanned(s, g, gUsed, sUsed + [Find(s, g[gpos], sUsed, 0).value], gpos + 1)
    ensures Find(s, g[gpos], sUsed, 0).None? ==> Scanned(s, g, gUsed, sUsed, gpos + 1)
  {
    var n, c := |s|, g[gpos];
    var scan := Find(s, c, sUsed, 0);
    var part := Used(g, gUsed, n) + Unused(g, gUsed, gpos);
    assert Used(g, gUsed, n) + Unused(g, gUsed, gpos + 1) == part + multiset{c};
    Split(s, sUsed, n);
    assert s[..n] == s;
    UnusedHas(s, sUsed, n, c);
    if scan.Some? {
      IntersectGrow(multiset(s), part, c);
      UsedPush(s, sUsed, scan.value, n);
    } else {
      IntersectSaturated(multiset(s), part, c);
    }
  }

  lemma {:induction false} ExactIsRightPlaces<T>(s: seq<T>, g: seq<T>, n: nat)
    requires n <= |s| == |g|
    ensures |RightPlaces(s, g, n)| == Exact(s[..n], g[..n])
  {
    if n > 0 {
      ExactIsRightPlaces(s, g, n - 1);
      assert s[..n][..n - 1] == s[..n - 1];
      assert g[..n][..n - 1] == g[..n - 1];
    }
  }

  /** Every position below `n` is either used or unused. */
  lemma {:induction false} Split<T>(s: seq<T>, used: seq<nat>, n: nat)
    requires n <= |s|
    ensures Used(s, used, n) + Unused(s, used, n) == multiset(s[..n])
  {
    if n > 0 {
      var k := n - 1;
      Split(s, used, k);
      assert s[..n] == s[..k] + [s[k]];
      assert multiset(s[..n]) == multiset(s[..k]) + multiset{s[k]};
      if k in used {
        assert Used(s, used, n) == Used(s, used, k) + multiset{s[k]};
        assert Unused(s, used, n) == Unused(s, used, k);
      } else {
        assert Used(s, used, n) == Used(s, used, k);
        assert Unused(s, used, n) == Unused(s, used, k) + multiset{s[k]};
      }
    }
  }

  lemma {:induction false} UnusedHas<T>(s: seq<T>, used: seq<nat>, n: nat, c: T)
    requires n <= |s|
    ensures c in Unused(s, used, n) <==> exists j :: 0 <= j < n && j !in used && s[j] == c
  {
    if n > 0 {
      var k := n - 1;
      UnusedHas(s, used, k, c);
      var here := if k in used then multiset{} else multiset{s[k]};
      assert Unused(s, used, n) == Unused(s, used, k) + here;
      if k !in used && s[k] == c {
        assert c in here;
      } else {
        assert c !in here;
        if exists j :: 0 <= j < n && j !in used && s[j] == c {
          var j :| 0 <= j < n && j !in used && s[j] == c;
          assert j < k;
        }
      }
    }
  }

  /** Pushing an unused position adds its colour to the used multiset. */
  lemma {:induction false} UsedPush<T>(s: seq<T>, used: seq<nat>, j: nat, n: nat)
    requires j < |s| && n <= |s| && j !in used
    ensures Used(s, used + [j], n) == Used(s, used, n) + (if j < n then multiset{s[j]} else multiset{})
  {
    if n > 0 {
      var k := n - 1;
      UsedPush(s, used, j, k);
      var here := if k in used + [j] then multiset{s[k]} else multiset{};
      var pushed := if j < k then multiset{s[j]} else multiset{};
      assert Used(s, used + [j], n) == Used(s, used, k) + pushed + here;
      if k == j {
        assert k in used + [j] && k !in used;
      } else {
        assert (k in used + [j]) == (k in used);
      }
    }
  }

  lemma {:induction false} UsedCongruent<T>(s: seq<T>, u: seq<nat>, v: seq<nat>, n: nat)
    requires n <= |s|
    requires forall j :: 0 <= j < n ==> (j in u <==> j in v)
    ensures Used(s, u, n) == Used(s, v, n)
  {
    if n > 0 {
      UsedCongruent(s, u, v, n - 1);
    }
  }

  lemma {:induction false} UsedAgree<T>(s: seq<T>, g: seq<T>, used: seq<nat>, n: nat)
    requires n <= |s| == |g|
    requires forall j :: j in used && j < n ==> s[j] == g[j]
    ensures Used(s, used, n) == Used(g, used, n)
  {
    if n > 0 {
      UsedAgree(s, g, used, n - 1);
    }
  }

  /** The right-place positions contribute one colour each. */
  lemma {:induction false} RightPlacesUsed<T>(s: seq<T>, g: seq<T>, n: nat)
    requires n <= |s| == |g|
    ensures |Used(s, RightPlaces(s, g, n), n)| == |RightPlaces(s, g, n)|
  {
    if n > 0 {
      var u, v := RightPlaces(s, g, n), RightPlaces(s, g, n - 1);
      RightPlacesUsed(s, g, n - 1);
      UsedCongruent(s, u, v, n - 1);
      assert (n - 1 in u) == (s[n - 1] == g[n - 1]);
    }
  }

  lemma IntersectSub<T>(a: multiset<T>, b: multiset<T>)
    requires b <= a
    ensures a * b == b
  {
    assert forall x :: (a * b)[x] == b[x];
  }

  lemma IntersectGrow<T>(a: multiset<T>, b: multiset<T>, c: T)
    requires (a * b)[c] < a[c]
    ensures a * (b + multiset{c}) == a * b + multiset{c}
  {
    assert forall x :: (a * (b + multiset{c}))[x] == (a * b + multiset{c})[x];
  }

  lemma IntersectSaturated<T>(a: multiset<T>, b: multiset<T>, c: T)
    requires (a * b)[c] == a[c]
    ensures a * (b + multiset{c}) == a * b
  {
    assert forall x :: (a * (b + multiset{c}))[x] == (a * b)[x];
  }
  /** Black pegs never outnumber the shared colours, and these never
      outnumber the positions: so `blacks + whites <= size`. */
  lemma ExactAtMostCommon<T>(s: seq<T>, g: seq<T>)
    requires |s| == |g|
    ensures Exact(s, g) <= Common(s, g) <= |s|
  {
    var n, u := |s|, RightPlaces(s, g, |s|);
    ExactIsRightPlaces(s, g, n);
    assert s[..n] == s && g[..n] == g;
    RightPlacesUsed(s, g, n);
    UsedAgree(s, g, u, n);
    Split(s, u, n);
    Split(g, u, n);
    var both := multiset(s) * multiset(g);
    assert Used(s, u, n) <= both;
    SubsetSize(Used(s, u, n), both);
    SubsetSize(both, multiset(s));
  }

  lemma SubsetSize<T>(a: multiset<T>, b: multiset<T>)
    requires a <= b
    ensures |a| <= |b|
  {
    assert b == a + (b - a);
  }

  lemma {:induction false} ExactSymmetric<T>(s: seq<T>, g: seq<T>)
    requires |s| == |g|
    ensures Exact(s, g) == Exact(g, s)
    decreases |s|
  {
    if s != [] {
      ExactSymmetric(s[..|s| - 1], g[..|g| - 1]);
    }
  }

  lemma CommonSymmetric<T>(s: seq<T>, g: seq<T>)
    ensures Common(s, g) == Common(g, s)
  {
    assert multiset(s) * multiset(g) == multiset(g) * multiset(s);
  }

  /** A sequence scored against itself: every position is black. */
  lemma {:induction false} ExactSelf<T>(s: seq<T>)
    ensures Exact(s, s) == |s| == Common(s, s)
    decreases |s|
  {
    if s != [] {
      ExactSelf(s[..|s| - 1]);
    }
    assert multiset(s) * multiset(s) == multiset(s);
  }

  /** All positions are black only when the sequences are equal. */
  lemma {:induction false} ExactAllMeansEqual<T>(s: seq<T>, g: seq<T>)
    requires |s| == |g| && Exact(s, g) == |s|
    ensures s == g
    decreases |s|
  {
    if s != [] {
      var k := |s| - 1;
      ExactAllMeansEqual(s[..k], g[..k]);
      assert s == s[..k] + [s[k]] && g == g[..k] + [g[k]];
    }
  }
}
