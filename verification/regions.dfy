/**
 * Link regions and lines. A link whose target contains a space is reported by
 * the host as several link regions; the show pass merges neighbours separated
 * only by whitespace into one region covering them all.
 */
module Regions {
  import Text

  /** A region of the document, `a` its begin and `b` its end. */
  datatype Region = Region(a: nat, b: nat)

  /** `r` lies inside `outer`. */
  predicate Within(r: Region, outer: Region)
  {
    outer.a <= r.a && r.b <= outer.b
  }

  /** Each region non-empty, in document order, none overlapping a later one. */
  predicate Ordered(regs: seq<Region>)
  {
    && (forall i :: 0 <= i < |regs| ==> regs[i].a < regs[i].b)
    && (forall i, j :: 0 <= i < j < |regs| ==> regs[i].b <= regs[j].a)
  }

  /** What the host promises of the link regions it reports: ordered and inside the text. */
  predicate WellFormed(text: string, regs: seq<Region>)
  {
    Ordered(regs) && forall i :: 0 <= i < |regs| ==> regs[i].b <= |text|
  }

  /** `view.substr(r)`. */
  function Substr(text: string, r: Region): string
    requires r.a <= r.b <= |text|
  {
    text[r.a..r.b]
  }

  /** `x.cover(y)`: the smallest region holding both. */
  function Cover(x: Region, y: Region): (r: Region)
    ensures Within(x, r) && Within(y, r)
    ensures forall z :: Within(x, z) && Within(y, z) ==> Within(r, z)
  {
    Region(if x.a <= y.a then x.a else y.a, if x.b >= y.b then x.b else y.b)
  }

  /** The text between links `i` and `i + 1` is non-empty and all whitespace. */
  predicate Joined(text: string, regs: seq<Region>, i: int)
    requires WellFormed(text, regs) && 0 <= i < |regs| - 1
  {
    Text.IsSpace(text[regs[i].b..regs[i + 1].a])
  }

  /** `indexes_to_merge`, as one flag per gap: `flags[i]` says link `i + 1` joins link `i`. */
  function JoinFlags(text: string, regs: seq<Region>): (flags: seq<bool>)
    requires WellFormed(text, regs)
    ensures |flags| == if |regs| == 0 then 0 else |regs| - 1
    ensures forall i :: 0 <= i < |flags| ==> (flags[i] <==> Joined(text, regs, i))
  {
    seq(if |regs| == 0 then 0 else |regs| - 1, i requires 0 <= i < |regs| - 1 => Joined(text, regs, i))
  }

  /** The flags fit the links: one per gap. */
  predicate Fits(regs: seq<Region>, flags: seq<bool>)
  {
    |regs| > 0 && |flags| == |regs| - 1
  }

  /**
   * The merge loop run over the first `n` links: link `n - 1` is folded into
   * the last output region when its gap flag is set, and appended otherwise.
   */
  function MergePrefix(regs: seq<Region>, flags: seq<bool>, n: nat): (out: seq<Region>)
    requires Fits(regs, flags) && n <= |regs|
    ensures |out| <= n && (n > 0 <==> |out| > 0)
  {
    if n == 0 then []
    else
      var prev := MergePrefix(regs, flags, n - 1);
      if n >= 2 && flags[n - 2] then
        prev[..|prev| - 1] + [Cover(prev[|prev| - 1], regs[n - 1])]
      else
        prev + [regs[n - 1]]
  }

  /** The index of the merged region that link `i` ends up in: the number of unset flags before it. */
  function Group(flags: seq<bool>, i: nat): nat
    requires i <= |flags|
  {
    if i == 0 then 0 else Group(flags, i - 1) + (if flags[i - 1] then 0 else 1)
  }

  /** How many of the first `k` gaps are merged. */
  function Joins(flags: seq<bool>, k: nat): nat
    requires k <= |flags|
  {
    if k == 0 then 0 else Joins(flags, k - 1) + (if flags[k - 1] then 1 else 0)
  }

  lemma {:induction false} GroupCount(flags: seq<bool>, i: nat)
    requires i <= |flags|
    ensures Group(flags, i) == i - Joins(flags, i)
  {
    if i > 0 {
      GroupCount(flags, i - 1);
    }
  }

  /** Groups never decrease, and an unset flag after link `i` puts every later link in a later group. */
  lemma {:induction false} GroupMonotone(flags: seq<bool>, i: nat, j: nat)
    requires i <= j <= |flags|
    ensures Group(flags, i) <= Group(flags, j)
    ensures i < j && !flags[i] ==> Group(flags, i) < Group(flags, j)
    decreases j - i
  {
    if i < j {
      GroupMonotone(flags, i, j - 1);
    }
  }

  /** No region of `out` ends after `bound`. */
  ghost predicate EndsBy(out: seq<Region>, bound: nat)
  {
    forall k :: 0 <= k < |out| ==> out[k].b <= bound
  }

  /** Every one of the first `n` links lies in the output region its group names. */
  ghost predicate Covers(regs: seq<Region>, flags: seq<bool>, n: nat, out: seq<Region>)
    requires Fits(regs, flags) && n <= |regs|
  {
    forall i :: 0 <= i < n ==> Group(flags, i) < |out| && Within(regs[i], out[Group(flags, i)])
  }

  /** Each output region begins where its first link begins. */
  ghost predicate Starts(regs: seq<Region>, flags: seq<bool>, n: nat, out: seq<Region>)
    requires Fits(regs, flags) && n <= |regs|
  {
    && (|out| > 0 ==> out[0].a == regs[0].a)
    && (forall i :: 0 < i < n && !flags[i - 1] ==> Group(flags, i) < |out| && out[Group(flags, i)].a == regs[i].a)
  }

  /** Each output region ends where its last link ends. */
  ghost predicate Ends(regs: seq<Region>, flags: seq<bool>, n: nat, out: seq<Region>)
    requires Fits(regs, flags) && 0 < n <= |regs|
  {
    && (forall i :: 0 <= i < n - 1 && !flags[i] ==> Group(flags, i) < |out| && out[Group(flags, i)].b == regs[i].b)
    && |out| > 0 && out[|out| - 1].b == regs[n - 1].b
  }

  /** What the merge of the first `n` links looks like, stated through `Group`. */
  ghost predicate Shape(regs: seq<Region>, flags: seq<bool>, n: nat, out: seq<Region>)
    requires Fits(regs, flags) && 0 < n <= |regs|
  {
    && |out| == Group(flags, n - 1) + 1
    && Ordered(out)
    && EndsBy(out, regs[n - 1].b)
    && Covers(regs, flags, n, out)
    && Starts(regs, flags, n, out)
    && Ends(regs, flags, n, out)
  }

  /** Folding link `n - 1` into the last output region keeps every link covered. */
  lemma JoinedCovers(regs: seq<Region>, flags: seq<bool>, n: nat)
    requires Ordered(regs) && Fits(regs, flags) && 2 <= n <= |regs| && flags[n - 2]
    requires |MergePrefix(regs, flags, n - 1)| == Group(flags, n - 2) + 1
    requires Covers(regs, flags, n - 1, MergePrefix(regs, flags, n - 1))
    ensures Covers(regs, flags, n, MergePrefix(regs, flags, n))
  {
    var prev := MergePrefix(regs, flags, n - 1);
    var out := MergePrefix(regs, flags, n);
    var g := |prev| - 1;
    var c := Cover(prev[g], regs[n - 1]);
    assert out == prev[..g] + [c];
    WidenLastKeeps(prev, c);
    assert Group(flags, n - 1) == g;
    forall i | 0 <= i < n
      ensures Group(flags, i) < |out| && Within(regs[i], out[Group(flags, i)])
    {
      var gi := Group(flags, i);
      if i < n - 1 {
        GroupMonotone(flags, i, n - 2);
        assert Within(regs[i], prev[gi]);
        if gi < g {
          assert out[gi] == prev[gi];
        } else {
          assert out[gi] == c;
        }
      } else {
        assert out[gi] == c;
      }
    }
  }

  /** Folding link `n - 1` into the last output region keeps where the regions start. */
  lemma JoinedStarts(regs: seq<Region>, flags: seq<bool>, n: nat)
    requires Ordered(regs) && Fits(regs, flags) && 2 <= n <= |regs| && flags[n - 2]
    requires |MergePrefix(regs, flags, n - 1)| == Group(flags, n - 2) + 1
    requires Starts(regs, flags, n - 1, MergePrefix(regs, flags, n - 1))
    ensures Starts(regs, flags, n, MergePrefix(regs, flags, n))
  {
    var prev := MergePrefix(regs, flags, n - 1);
    var out := MergePrefix(regs, flags, n);
    var g := |prev| - 1;
    var c := Cover(prev[g], regs[n - 1]);
    assert out == prev[..g] + [c];
    WidenLastKeeps(prev, c);
    assert regs[0].a <= regs[n - 1].a by {
      assert regs[0].b <= regs[n - 1].a;
    }
    forall i | 0 < i < n && !flags[i - 1]
      ensures Group(flags, i) < |out| && out[Group(flags, i)].a == regs[i].a
    {
      assert i < n - 1;
      GroupMonotone(flags, i, n - 2);
      var gi := Group(flags, i);
      assert prev[gi].a == regs[i].a;
      if gi == g {
        assert regs[i].b <= regs[n - 1].a;
        assert out[gi] == c;
      } else {
        assert out[gi] == prev[gi];
      }
    }
  }

  /** Replacing the last region by one ending where link `n - 1` ends keeps where the regions end. */
  lemma WidenLastEnds(regs: seq<Region>, flags: seq<bool>, n: nat, prev: seq<Region>, c: Region)
    requires Fits(regs, flags) && 2 <= n <= |regs| && flags[n - 2]
    requires |prev| == Group(flags, n - 2) + 1
    requires Ends(regs, flags, n - 1, prev)
    requires c.b == regs[n - 1].b
    ensures Ends(regs, flags, n, prev[..|prev| - 1] + [c])
  {
    var g := |prev| - 1;
    var out := prev[..g] + [c];
    WidenLastKeeps(prev, c);
    forall i | 0 <= i < n - 1 && !flags[i]
      ensures Group(flags, i) < |out| && out[Group(flags, i)].b == regs[i].b
    {
      assert flags[i] != flags[n - 2];
      GroupMonotone(flags, i, n - 2);
      var gi := Group(flags, i);
      assert gi < Group(flags, n - 2);
      assert prev[gi].b == regs[i].b;
      assert out[gi] == prev[gi];
    }
  }

  /** Folding link `n - 1` into the last output region keeps where the regions end. */
  lemma JoinedEnds(regs: seq<Region>, flags: seq<bool>, n: nat)
    requires Ordered(regs) && Fits(regs, flags) && 2 <= n <= |regs| && flags[n - 2]
    requires |MergePrefix(regs, flags, n - 1)| == Group(flags, n - 2) + 1
    requires Ends(regs, flags, n - 1, MergePrefix(regs, flags, n - 1))
    ensures Ends(regs, flags, n, MergePrefix(regs, flags, n))
  {
    var prev := MergePrefix(regs, flags, n - 1);
    var g := |prev| - 1;
    var c := Cover(prev[g], regs[n - 1]);
    assert prev[g].b == regs[n - 2].b <= regs[n - 1].a;
    WidenLastEnds(regs, flags, n, prev, c);
  }

  /** Folding link `n - 1` into the last output region moves the bound on region ends up to its end. */
  lemma JoinedEndsBy(regs: seq<Region>, flags: seq<bool>, n: nat)
    requires Ordered(regs) && Fits(regs, flags) && 2 <= n <= |regs| && flags[n - 2]
    requires EndsBy(MergePrefix(regs, flags, n - 1), regs[n - 2].b)
    ensures EndsBy(MergePrefix(regs, flags, n), regs[n - 1].b)
  {
    var prev := MergePrefix(regs, flags, n - 1);
    var out := MergePrefix(regs, flags, n);
    var g := |prev| - 1;
    assert out == prev[..g] + [Cover(prev[g], regs[n - 1])];
    assert regs[n - 2].b <= regs[n - 1].a;
    forall k | 0 <= k < |out| ensures out[k].b <= regs[n - 1].b {
      if k < g {
        assert out[k] == prev[k];
      }
    }
  }

  /** Replacing the last region leaves the others in place and has the same length. */
  lemma WidenLastKeeps(prev: seq<Region>, c: Region)
    requires |prev| > 0
    ensures |prev[..|prev| - 1] + [c]| == |prev|
    ensures (prev[..|prev| - 1] + [c])[|prev| - 1] == c
    ensures forall k :: 0 <= k < |prev| - 1 ==> (prev[..|prev| - 1] + [c])[k] == prev[k]
  {
  }

  /** Widening the last region of an ordered sequence to the right keeps it ordered. */
  lemma WidenLastOrdered(prev: seq<Region>, c: Region)
    requires Ordered(prev) && |prev| > 0
    requires c.a == prev[|prev| - 1].a && prev[|prev| - 1].b <= c.b
    ensures Ordered(prev[..|prev| - 1] + [c])
  {
    var g := |prev| - 1;
    var out := prev[..g] + [c];
    forall k | 0 <= k < |out| ensures out[k].a < out[k].b {
      if k < g {
        assert out[k] == prev[k];
      }
    }
    forall k, l | 0 <= k < l < |out| ensures out[k].b <= out[l].a {
      assert out[k] == prev[k];
      if l < g {
        assert out[l] == prev[l];
      }
      assert prev[k].b <= prev[l].a;
    }
  }

  /** Folding link `n - 1` into the last output region keeps the output ordered. */
  lemma JoinedOrdered(regs: seq<Region>, flags: seq<bool>, n: nat)
    requires Ordered(regs) && Fits(regs, flags) && 2 <= n <= |regs| && flags[n - 2]
    requires Ordered(MergePrefix(regs, flags, n - 1))
    requires MergePrefix(regs, flags, n - 1)[|MergePrefix(regs, flags, n - 1)| - 1].b == regs[n - 2].b
    ensures Ordered(MergePrefix(regs, flags, n))
  {
    var prev := MergePrefix(regs, flags, n - 1);
    var g := |prev| - 1;
    var c := Cover(prev[g], regs[n - 1]);
    assert MergePrefix(regs, flags, n) == prev[..g] + [c];
    assert prev[g].a < prev[g].b;
    assert regs[n - 2].b <= regs[n - 1].a;
    assert c == Region(prev[g].a, regs[n - 1].b);
    WidenLastOrdered(prev, c);
  }

  /** Appending link `n - 1` as a region of its own keeps every link covered. */
  lemma AppendedCovers(regs: seq<Region>, flags: seq<bool>, n: nat)
    requires Ordered(regs) && Fits(regs, flags) && 2 <= n <= |regs| && !flags[n - 2]
    requires |MergePrefix(regs, flags, n - 1)| == Group(flags, n - 2) + 1
    requires Covers(regs, flags, n - 1, MergePrefix(regs, flags, n - 1))
    ensures Covers(regs, flags, n, MergePrefix(regs, flags, n))
  {
    var prev := MergePrefix(regs, flags, n - 1);
    var out := MergePrefix(regs, flags, n);
    assert out == prev + [regs[n - 1]];
    forall i | 0 <= i < n - 1 ensures Group(flags, i) < |prev| && out[Group(flags, i)] == prev[Group(flags, i)] {
      GroupMonotone(flags, i, n - 2);
    }
  }

  /** Appending link `n - 1` as a region of its own keeps where the regions start. */
  lemma AppendedStarts(regs: seq<Region>, flags: seq<bool>, n: nat)
    requires Ordered(regs) && Fits(regs, flags) && 2 <= n <= |regs| && !flags[n - 2]
    requires |MergePrefix(regs, flags, n - 1)| == Group(flags, n - 2) + 1
    requires Starts(regs, flags, n - 1, MergePrefix(regs, flags, n - 1))
    ensures Starts(regs, flags, n, MergePrefix(regs, flags, n))
  {
    var prev := MergePrefix(regs, flags, n - 1);
    var out := MergePrefix(regs, flags, n);
    assert out == prev + [regs[n - 1]];
    forall i | 0 < i < n - 1 && !flags[i - 1]
      ensures Group(flags, i) < |prev| && out[Group(flags, i)] == prev[Group(flags, i)]
    {
      GroupMonotone(flags, i, n - 2);
    }
  }

  /** Appending link `n - 1` as a region of its own keeps where the regions end. */
  lemma AppendedEnds(regs: seq<Region>, flags: seq<bool>, n: nat)
    requires Ordered(regs) && Fits(regs, flags) && 2 <= n <= |regs| && !flags[n - 2]
    requires |MergePrefix(regs, flags, n - 1)| == Group(flags, n - 2) + 1
    requires Ends(regs, flags, n - 1, MergePrefix(regs, flags, n - 1))
    ensures Ends(regs, flags, n, MergePrefix(regs, flags, n))
  {
    var prev := MergePrefix(regs, flags, n - 1);
    var out := MergePrefix(regs, flags, n);
    assert out == prev + [regs[n - 1]];
    assert out[|out| - 1] == regs[n - 1];
    forall i | 0 <= i < n - 1 && !flags[i]
      ensures Group(flags, i) < |out| && out[Group(flags, i)].b == regs[i].b
    {
      var g := Group(flags, i);
      if i < n - 2 {
        GroupMonotone(flags, i, n - 2);
        assert out[g] == prev[g];
        assert prev[g].b == regs[i].b;
      } else {
        assert g == |prev| - 1;
        assert out[g] == prev[g];
        assert prev[g].b == regs[n - 2].b;
      }
    }
  }

  /** Appending link `n - 1` as a region of its own moves the bound on region ends up to its end. */
  lemma AppendedEndsBy(regs: seq<Region>, flags: seq<bool>, n: nat)
    requires Ordered(regs) && Fits(regs, flags) && 2 <= n <= |regs| && !flags[n - 2]
    requires EndsBy(MergePrefix(regs, flags, n - 1), regs[n - 2].b)
    ensures EndsBy(MergePrefix(regs, flags, n), regs[n - 1].b)
  {
    var prev := MergePrefix(regs, flags, n - 1);
    var out := MergePrefix(regs, flags, n);
    assert out == prev + [regs[n - 1]];
    assert regs[n - 2].b <= regs[n - 1].a;
  }

  /** Appending link `n - 1` as a region of its own keeps the output ordered. */
  lemma AppendedOrdered(regs: seq<Region>, flags: seq<bool>, n: nat)
    requires Ordered(regs) && Fits(regs, flags) && 2 <= n <= |regs| && !flags[n - 2]
    requires Ordered(MergePrefix(regs, flags, n - 1))
    requires EndsBy(MergePrefix(regs, flags, n - 1), regs[n - 2].b)
    ensures Ordered(MergePrefix(regs, flags, n))
  {
    var prev := MergePrefix(regs, flags, n - 1);
    var out := MergePrefix(regs, flags, n);
    assert out == prev + [regs[n - 1]];
    assert regs[n - 2].b <= regs[n - 1].a;
  }

  lemma {:induction false} MergeShape(regs: seq<Region>, flags: seq<bool>, n: nat)
    requires Ordered(regs) && Fits(regs, flags) && 0 < n <= |regs|
    ensures Shape(regs, flags, n, MergePrefix(regs, flags, n))
    ensures |MergePrefix(regs, flags, n)| == n - Joins(flags, n - 1)
  {
    GroupCount(flags, n - 1);
    if n > 1 {
      MergeShape(regs, flags, n - 1);
      if flags[n - 2] {
        JoinedCovers(regs, flags, n);
        JoinedStarts(regs, flags, n);
        JoinedEnds(regs, flags, n);
        JoinedEndsBy(regs, flags, n);
        JoinedOrdered(regs, flags, n);
      } else {
        AppendedCovers(regs, flags, n);
        AppendedStarts(regs, flags, n);
        AppendedEnds(regs, flags, n);
        AppendedEndsBy(regs, flags, n);
        AppendedOrdered(regs, flags, n);
      }
    }
  }

  /** Each link lies in exactly one region of the full merge: the one `Group` names. */
  lemma InExactlyOneGroup(regs: seq<Region>, flags: seq<bool>, i: nat, j: nat)
    requires Ordered(regs) && Fits(regs, flags) && i < |regs|
    requires j < |MergePrefix(regs, flags, |regs|)|
    ensures Group(flags, i) < |MergePrefix(regs, flags, |regs|)|
    ensures Within(regs[i], MergePrefix(regs, flags, |regs|)[j]) <==> j == Group(flags, i)
  {
    MergeShape(regs, flags, |regs|);
    var out := MergePrefix(regs, flags, |regs|);
    var g := Group(flags, i);
    assert Covers(regs, flags, |regs|, out);
    assert g < |out| && Within(regs[i], out[g]);
    if j < g {
      assert out[j].b <= out[g].a;
    } else if g < j {
      assert out[g].b <= out[j].a;
    }
  }

  /**
   * The merged link regions the show pass works on: still ordered and inside
   * the text, one fewer per merged gap.
   */
  function MergeRegions(text: string, regs: seq<Region>): (out: seq<Region>)
    requires WellFormed(text, regs)
    ensures WellFormed(text, out)
    ensures |regs| == 0 ==> out == []
    ensures |regs| > 0 ==> |out| == |regs| - Joins(JoinFlags(text, regs), |regs| - 1)
    ensures |regs| > 0 ==> out == MergePrefix(regs, JoinFlags(text, regs), |regs|)
  {
    if |regs| == 0 then []
    else
      var flags := JoinFlags(text, regs);
      MergeShape(regs, flags, |regs|);
      var out := MergePrefix(regs, flags, |regs|);
      assert EndsBy(out, regs[|regs| - 1].b);
      out
  }

  /** Each link lies in exactly one merged region: the one `Group` names. */
  lemma InExactlyOneRegion(text: string, regs: seq<Region>, i: nat, j: nat)
    requires WellFormed(text, regs) && i < |regs|
    requires j < |MergeRegions(text, regs)|
    ensures Group(JoinFlags(text, regs), i) < |MergeRegions(text, regs)|
    ensures Within(regs[i], MergeRegions(text, regs)[j]) <==> j == Group(JoinFlags(text, regs), i)
  {
    InExactlyOneGroup(regs, JoinFlags(text, regs), i, j);
  }

  /** Links `i` and `i + 1` end up in the same region of the full merge exactly when gap `i` is flagged. */
  lemma SameGroupIffFlag(regs: seq<Region>, flags: seq<bool>, i: nat)
    requires Ordered(regs) && Fits(regs, flags) && i + 1 < |regs|
    ensures Group(flags, i) < |MergePrefix(regs, flags, |regs|)|
    ensures Within(regs[i + 1], MergePrefix(regs, flags, |regs|)[Group(flags, i)]) <==> flags[i]
  {
    InExactlyOneGroup(regs, flags, i, 0);
    var g := Group(flags, i);
    assert Group(flags, i + 1) == g + (if flags[i] then 0 else 1);
    InExactlyOneGroup(regs, flags, i + 1, g);
  }

  /** Links `i` and `i + 1` end up in the same merged region exactly when the text between them is whitespace. */
  lemma MergedIffWhitespaceGap(text: string, regs: seq<Region>, i: nat)
    requires WellFormed(text, regs) && i + 1 < |regs|
    ensures Group(JoinFlags(text, regs), i) < |MergeRegions(text, regs)|
    ensures Within(regs[i + 1], MergeRegions(text, regs)[Group(JoinFlags(text, regs), i)]) <==> Joined(text, regs, i)
  {
    SameGroupIffFlag(regs, JoinFlags(text, regs), i);
  }

  /** Start of the line holding offset `p` (just after the previous newline). */
  function LineStart(text: string, p: nat): (s: nat)
    requires p <= |text|
    ensures s <= p
    ensures s == 0 || text[s - 1] == '\n'
    ensures forall k :: s <= k < p ==> text[k] != '\n'
    decreases p
  {
    if p == 0 || text[p - 1] == '\n' then p else LineStart(text, p - 1)
  }

  /** End of the line holding offset `p` (the next newline, or the end of the text). */
  function LineEnd(text: string, p: nat): (e: nat)
    requires p <= |text|
    ensures p <= e <= |text|
    ensures e == |text| || text[e] == '\n'
    ensures forall k :: p <= k < e ==> text[k] != '\n'
    decreases |text| - p
  {
    if p == |text| || text[p] == '\n' then p else LineEnd(text, p + 1)
  }

  /** `view.line(r)`: from the start of the line holding `r.a` to the end of the line holding `r.b`. */
  function Line(text: string, r: Region): (line: Region)
    requires r.a <= r.b <= |text|
    ensures Within(r, line) && line.b <= |text|
  {
    Region(LineStart(text, r.a), LineEnd(text, r.b))
  }

}
