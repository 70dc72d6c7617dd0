/**
 * Phantoms and the host's display of them. A phantom is a `(key, html)` pair;
 * the host keeps a multiset of displayed phantoms, `add_phantom` adds one and
 * `erase_phantoms(key)` removes every displayed phantom with that key. The
 * show pass records what it asked of the host in an effect log.
 */
module Phantoms {
  import Text
  import opened Sizing

  /** The `<img>` tag: its `src` and its attribute text. */
  datatype Html = Html(src: string, attr: Attr)

  /** The `(key, html)` pair the plugin tracks per view. */
  datatype Phantom = Phantom(key: string, html: Html)

  const KeyPrefix: string := "mdimage-"

  /** `'mdimage-' + str(line_region.b)`: one key per line end. */
  function KeyFor(lineEnd: nat): (k: string)
    ensures KeyPrefix <= k && |k| > |KeyPrefix|
  {
    KeyPrefix + Text.Decimal(lineEnd)
  }

  /** Two links get the same key exactly when their lines end at the same offset. */
  lemma KeyForInjective(m: nat, n: nat)
    requires KeyFor(m) == KeyFor(n)
    ensures m == n
  {
    assert KeyFor(m)[|KeyPrefix|..] == Text.Decimal(m);
    assert KeyFor(n)[|KeyPrefix|..] == Text.Decimal(n);
    Text.DecimalInjective(m, n);
  }

  /** A call the show pass makes outside itself. */
  datatype Effect =
    | Fetch(url: string)                         // urllib.request.urlopen
    | Add(key: string, anchor: nat, html: Html)  // view.add_phantom, anchored at a line end
    | Erase(key: string)                         // view.erase_phantoms

  /** `erase_phantoms(key)` on the host: every displayed phantom with that key goes. */
  function DropKey(shown: seq<Phantom>, key: string): (r: seq<Phantom>)
    ensures forall p :: multiset(r)[p] == if p.key == key then 0 else multiset(shown)[p]
  {
    if shown == [] then []
    else
      assert shown == [shown[0]] + shown[1..];
      if shown[0].key == key then DropKey(shown[1..], key)
      else [shown[0]] + DropKey(shown[1..], key)
  }

  /** The host's display after one effect. */
  function Apply(shown: seq<Phantom>, e: Effect): (r: seq<Phantom>)
    ensures e.Fetch? ==> r == shown
    ensures e.Add? ==> multiset(r) == multiset(shown) + multiset{Phantom(e.key, e.html)}
    ensures e.Erase? ==> forall p :: multiset(r)[p] == if p.key == e.key then 0 else multiset(shown)[p]
  {
    match e
    case Fetch(_) => shown
    case Add(key, _, html) => shown + [Phantom(key, html)]
    case Erase(key) => DropKey(shown, key)
  }

  /** The host's display after a whole log, oldest effect first. */
  function ApplyAll(shown: seq<Phantom>, log: seq<Effect>): seq<Phantom>
    decreases |log|
  {
    if log == [] then shown else ApplyAll(Apply(shown, log[0]), log[1..])
  }

  lemma {:induction false} ApplyAllConcat(shown: seq<Phantom>, a: seq<Effect>, b: seq<Effect>)
    ensures ApplyAll(shown, a + b) == ApplyAll(ApplyAll(shown, a), b)
    decreases |a|
  {
    if a != [] {
      assert (a + b)[0] == a[0];
      assert (a + b)[1..] == a[1..] + b;
      ApplyAllConcat(Apply(shown, a[0]), a[1..], b);
    } else {
      assert a + b == b;
    }
  }

  /** A log made of erase calls only. */
  predicate OnlyErases(log: seq<Effect>)
  {
    forall i :: 0 <= i < |log| ==> log[i].Erase?
  }

  /** Erasing never brings a phantom back, and an erase of `key` anywhere in the log leaves none with that key. */
  lemma {:induction false} ErasesRemove(shown: seq<Phantom>, log: seq<Effect>, p: Phantom)
    requires OnlyErases(log)
    ensures multiset(ApplyAll(shown, log))[p] <= multiset(shown)[p]
    ensures Erase(p.key) in log ==> multiset(ApplyAll(shown, log))[p] == 0
    decreases |log|
  {
    if log != [] {
      ErasesRemove(Apply(shown, log[0]), log[1..], p);
      if Erase(p.key) in log && log[0] != Erase(p.key) {
        assert Erase(p.key) in log[1..] by {
          var i :| 0 <= i < |log| && log[i] == Erase(p.key);
          assert log[1..][i - 1] == Erase(p.key);
        }
      }
    }
  }

  /** Each tracked key belongs to one tracked phantom. */
  predicate UniqueKeys(tracked: set<Phantom>)
  {
    forall p, q :: p in tracked && q in tracked && p.key == q.key ==> p == q
  }

  /** What the plugin tracks is exactly what the host displays, once each, with no key shared. */
  ghost predicate Consistent(tracked: set<Phantom>, shown: seq<Phantom>)
  {
    UniqueKeys(tracked) && forall p :: multiset(shown)[p] == if p in tracked then 1 else 0
  }

  /** The tracked phantoms with `key`. */
  function WithKey(tracked: set<Phantom>, key: string): (r: set<Phantom>)
    ensures forall q :: q in r <==> q in tracked && q.key == key
  {
    set q | q in tracked && q.key == key
  }

  /** Erasing a key drops the tracked phantoms with that key and keeps the rest consistent. */
  lemma EraseKeyKeeps(tracked: set<Phantom>, shown: seq<Phantom>, key: string)
    requires Consistent(tracked, shown)
    ensures Consistent(tracked - WithKey(tracked, key), DropKey(shown, key))
  {
  }

  /** Adding a phantom whose key nothing tracked uses keeps the display consistent. */
  lemma AddFreshKeyKeeps(tracked: set<Phantom>, shown: seq<Phantom>, p: Phantom, anchor: nat)
    requires Consistent(tracked, shown)
    requires forall q :: q in tracked ==> q.key != p.key
    ensures Consistent(tracked + {p}, Apply(shown, Add(p.key, anchor, p.html)))
  {
    var r := Apply(shown, Add(p.key, anchor, p.html));
    forall x ensures multiset(r)[x] == if x in tracked + {p} then 1 else 0 {
      if x != p {
        assert multiset(r)[x] == multiset(shown)[x];
      }
    }
  }

  /**
   * The key -> phantom map the show pass fills (`phantoms[key] = phantom`),
   * from the phantoms in the order the pass produced them: a later one
   * replaces an earlier one with the same key.
   */
  function Desired(found: seq<Phantom>): (d: map<string, Phantom>)
    ensures forall k :: k in d ==> d[k].key == k && d[k] in found
    ensures forall j :: 0 <= j < |found| ==> found[j].key in d
  {
    if found == [] then map[]
    else
      var last := found[|found| - 1];
      Desired(found[..|found| - 1])[last.key := last]
  }

  /** The map keeps, for each key, the phantom produced last. */
  lemma {:induction false} DesiredIsLast(found: seq<Phantom>, j: nat)
    requires j < |found|
    requires forall j' :: j < j' < |found| ==> found[j'].key != found[j].key
    ensures Desired(found)[found[j].key] == found[j]
  {
    var last := found[|found| - 1];
    if j < |found| - 1 {
      var init := found[..|found| - 1];
      assert init[j] == found[j];
      forall j' | j < j' < |init| ensures init[j'].key != init[j].key {
        assert init[j'] == found[j'];
      }
      DesiredIsLast(init, j);
    }
  }

  /** `phantoms.get(p[0]) != p`: the pass did not produce `p` as the final phantom for its key. */
  predicate Stale(p: Phantom, desired: map<string, Phantom>)
  {
    !(p.key in desired && desired[p.key] == p)
  }

  /** No element repeats. */
  predicate NoDup(s: seq<Phantom>)
  {
    forall i, j :: 0 <= i < j < |s| ==> s[i] != s[j]
  }

  /**
   * The erase loop over `list(tracked)`, visited in `order`: a stale phantom is
   * erased by key on the host and dropped from the tracked set.
   */
  function EraseStale(tracked: set<Phantom>, desired: map<string, Phantom>, order: seq<Phantom>): (r: (set<Phantom>, seq<Effect>))
    ensures r.0 == tracked - set p | p in order && Stale(p, desired)
    ensures OnlyErases(r.1)
    ensures forall p :: p in order && Stale(p, desired) ==> Erase(p.key) in r.1
  {
    if order == [] then (tracked, [])
    else
      var p := order[0];
      var rest := EraseStale(tracked, desired, order[1..]);
      if Stale(p, desired) then
        (rest.0 - {p}, [Erase(p.key)] + rest.1)
      else
        (rest.0, rest.1)
  }

  /** The number of stale phantoms in `order`. */
  function CountStale(order: seq<Phantom>, desired: map<string, Phantom>): nat
  {
    if order == [] then 0 else (if Stale(order[0], desired) then 1 else 0) + CountStale(order[1..], desired)
  }

  /** The erase loop calls `erase_phantoms` once per stale phantom it visits. */
  lemma {:induction false} OneErasePerStale(tracked: set<Phantom>, desired: map<string, Phantom>, order: seq<Phantom>)
    ensures |EraseStale(tracked, desired, order).1| == CountStale(order, desired)
  {
    if order != [] {
      OneErasePerStale(tracked, desired, order[1..]);
    }
  }

  /** The stale phantoms among those of `order`. */
  ghost function StaleIn(order: seq<Phantom>, desired: map<string, Phantom>): set<Phantom>
  {
    set p | p in order && Stale(p, desired)
  }

  /** Putting `x` in front adds it to the stale ones exactly when it is stale. */
  lemma StaleInCons(x: Phantom, rest: seq<Phantom>, desired: map<string, Phantom>)
    ensures StaleIn([x] + rest, desired) == StaleIn(rest, desired) + (if Stale(x, desired) then {x} else {})
  {
    forall p ensures p in StaleIn([x] + rest, desired) <==> p in StaleIn(rest, desired) || (p == x && Stale(x, desired)) {
      assert p in [x] + rest <==> p == x || p in rest;
    }
  }

  /** Visiting each tracked phantom once, the stale ones counted are the stale tracked phantoms. */
  lemma {:induction false} CountStaleIsCard(desired: map<string, Phantom>, order: seq<Phantom>)
    requires NoDup(order)
    ensures CountStale(order, desired) == |StaleIn(order, desired)|
  {
    if order != [] {
      var x, rest := order[0], order[1..];
      assert NoDup(rest) by {
        forall i, j | 0 <= i < j < |rest| ensures rest[i] != rest[j] {
          assert rest[i] == order[i + 1] && rest[j] == order[j + 1];
        }
      }
      CountStaleIsCard(desired, rest);
      assert x !in StaleIn(rest, desired) by {
        forall j | 0 <= j < |rest| ensures rest[j] != x {
          assert rest[j] == order[j + 1];
        }
      }
      assert order == [x] + rest;
      StaleInCons(x, rest, desired);
    }
  }

  /** After the erase loop, the tracked phantoms are those of `tracked` that the pass produced as final. */
  lemma EraseLeavesDesired(tracked: set<Phantom>, desired: map<string, Phantom>, order: seq<Phantom>)
    requires forall p :: p in order <==> p in tracked
    ensures EraseStale(tracked, desired, order).0 == set p | p in tracked && !Stale(p, desired)
  {
  }

  /** Once every tracked phantom is the final one for its key, the erase loop erases nothing and keeps everything. */
  lemma {:induction false} SettledErasesNothing(tracked: set<Phantom>, desired: map<string, Phantom>, order: seq<Phantom>)
    requires forall p :: p in tracked ==> !Stale(p, desired)
    requires forall p :: p in order ==> p in tracked
    ensures EraseStale(tracked, desired, order) == (tracked, [])
    decreases |order|
  {
    if order != [] {
      assert order[0] in order;
      forall p | p in order[1..] ensures p in tracked {
        assert order == [order[0]] + order[1..];
      }
      SettledErasesNothing(tracked, desired, order[1..]);
    }
  }

  /** With unique keys, each erase in the loop removes only the stale phantom it was made for. */
  lemma {:induction false} EraseStaleKeeps(tracked: set<Phantom>, shown: seq<Phantom>, desired: map<string, Phantom>, order: seq<Phantom>)
    requires Consistent(tracked, shown)
    requires forall p :: p in order ==> p in tracked
    ensures Consistent(EraseStale(tracked, desired, order).0, ApplyAll(shown, EraseStale(tracked, desired, order).1))
    decreases |order|
  {
    if order != [] {
      var p := order[0];
      var rest := EraseStale(tracked, desired, order[1..]);
      EraseStaleKeeps(tracked, shown, desired, order[1..]);
      if Stale(p, desired) {
        var t := rest.0;
        var mid := ApplyAll(shown, rest.1);
        ApplyAllConcat(shown, rest.1, [Erase(p.key)]);
        EraseKeyKeeps(t, mid, p.key);
        assert WithKey(t, p.key) <= {p};
        assert t - WithKey(t, p.key) == t - {p};
        ErasesCommute(shown, rest.1, p.key);
      }
    }
  }

  /** An erase put first or last in a log of erases gives the same display. */
  lemma ErasesCommute(shown: seq<Phantom>, log: seq<Effect>, key: string)
    requires OnlyErases(log)
    ensures multiset(ApplyAll(shown, [Erase(key)] + log)) == multiset(ApplyAll(shown, log + [Erase(key)]))
  {
    ApplyAllConcat(shown, log, [Erase(key)]);
    assert ([Erase(key)] + log)[1..] == log;
    forall p ensures multiset(ApplyAll(shown, [Erase(key)] + log))[p] == multiset(ApplyAll(shown, log + [Erase(key)]))[p] {
      ErasedDisplay(shown, log, p);
      ErasedDisplay(Apply(shown, Erase(key)), log, p);
    }
  }

  /** Under a log of erases, a phantom stays displayed as often as before unless its key is erased. */
  lemma {:induction false} ErasedDisplay(shown: seq<Phantom>, log: seq<Effect>, p: Phantom)
    requires OnlyErases(log)
    ensures multiset(ApplyAll(shown, log))[p] == if Erase(p.key) in log then 0 else multiset(shown)[p]
    decreases |log|
  {
    if log != [] {
      var e, rest := log[0], log[1..];
      assert e.Erase?;
      assert OnlyErases(rest) by {
        forall i | 0 <= i < |rest| ensures rest[i].Erase? {
          assert rest[i] == log[i + 1];
        }
      }
      var next := Apply(shown, e);
      assert multiset(next)[p] == if p.key == e.key then 0 else multiset(shown)[p];
      ErasedDisplay(next, rest, p);
      assert ApplyAll(shown, log) == ApplyAll(next, rest);
      assert Erase(p.key) in log <==> e == Erase(p.key) || Erase(p.key) in rest by {
        assert log == [e] + rest;
      }
    }
  }

  /** Some enumeration of a set, without repeats: Python's set iteration order, which the model leaves open. */
  ghost function Enumerate(s: set<Phantom>): (r: seq<Phantom>)
    ensures NoDup(r) && |r| == |s|
    ensures forall x :: x in r <==> x in s
  {
    if s == {} then []
    else
      var x :| x in s;
      var rest := Enumerate(s - {x});
      assert forall i :: 0 <= i < |rest| ==> rest[i] != x;
      [x] + rest
  }

  /** `_erase_phantoms`: one erase per tracked phantom, in set order. */
  function EraseAll(order: seq<Phantom>): (log: seq<Effect>)
    ensures |log| == |order| && OnlyErases(log)
    ensures forall i :: 0 <= i < |order| ==> log[i] == Erase(order[i].key)
  {
    if order == [] then [] else [Erase(order[0].key)] + EraseAll(order[1..])
  }

  /** After hiding, nothing the plugin tracked is still displayed. */
  lemma HideClearsTracked(tracked: set<Phantom>, shown: seq<Phantom>, order: seq<Phantom>)
    requires Consistent(tracked, shown)
    requires forall p :: p in order <==> p in tracked
    ensures forall p :: multiset(ApplyAll(shown, EraseAll(order)))[p] == 0
  {
    var log := EraseAll(order);
    forall p ensures multiset(ApplyAll(shown, log))[p] == 0 {
      ErasedDisplay(shown, log, p);
      if p in tracked {
        var i :| 0 <= i < |order| && order[i] == p;
        assert log[i] == Erase(p.key);
      }
    }
  }

}
