/**
 * The greedy line-filling fold shared by the two word wrappers: items are
 * taken in order, each joins the current line when `fits` says so, and
 * otherwise closes it and starts the next one.
 */
module Greedy {
  import opened Strs

  /**
   * `acc` holds the closed lines and `cur` the open one (empty before the
   * first item). An empty `cur` always accepts the next item.
   */
  function Pack<T>(items: seq<T>, fits: (seq<T>, T) -> bool, acc: seq<seq<T>>, cur: seq<T>): seq<seq<T>>
    decreases |items|
  {
    if |items| == 0 then
      if cur == [] then acc else acc + [cur]
    else if cur == [] then
      Pack(items[1..], fits, acc, [items[0]])
    else if fits(cur, items[0]) then
      Pack(items[1..], fits, acc, cur + [items[0]])
    else
      Pack(items[1..], fits, acc + [cur], [items[0]])
  }

  /** Every item after the first joined its line because it fit there. */
  predicate Chained<T>(g: seq<T>, fits: (seq<T>, T) -> bool)
  {
    |g| > 0 && forall k | 1 <= k < |g| :: fits(g[..k], g[k])
  }

  /**
   * Lines as filled greedily: each one chained, and each closed only because
   * the first item of the next one did not fit.
   */
  predicate IsGreedy<T>(gs: seq<seq<T>>, fits: (seq<T>, T) -> bool)
  {
    && (forall i | 0 <= i < |gs| :: Chained(gs[i], fits))
    && (forall i | 0 <= i < |gs| - 1 :: !fits(gs[i], gs[i + 1][0]))
  }

  /** Lines of a packing from scratch. */
  function Fill<T>(items: seq<T>, fits: (seq<T>, T) -> bool): (gs: seq<seq<T>>)
    ensures IsGreedy(gs, fits)
    ensures Concat(gs) == items
    ensures |items| == 0 <==> |gs| == 0
  {
    PackConcat(items, fits, [], []);
    PackGreedy(items, fits, [], []);
    Pack(items, fits, [], [])
  }

  /** Packing keeps the lines greedy. */
  lemma {:induction false} PackGreedy<T>(items: seq<T>, fits: (seq<T>, T) -> bool, acc: seq<seq<T>>, cur: seq<T>)
    requires IsGreedy(acc, fits)
    requires cur != [] ==> Chained(cur, fits)
    requires acc != [] ==> cur != [] && !fits(acc[|acc| - 1], cur[0])
    ensures IsGreedy(Pack(items, fits, acc, cur), fits)
    decreases |items|
  {
    if |items| == 0 {
      if cur != [] {
        IsGreedySnoc(acc, cur, fits);
      }
    } else {
      var w := items[0];
      if cur == [] {
        PackGreedy(items[1..], fits, acc, [w]);
      } else if fits(cur, w) {
        var c := cur + [w];
        assert c[..|cur|] == cur;
        forall k | 1 <= k < |c| ensures fits(c[..k], c[k]) {
          if k < |cur| {
            assert c[..k] == cur[..k];
          }
        }
        PackGreedy(items[1..], fits, acc, c);
      } else {
        IsGreedySnoc(acc, cur, fits);
        PackGreedy(items[1..], fits, acc + [cur], [w]);
      }
    }
  }

  lemma IsGreedySnoc<T>(acc: seq<seq<T>>, cur: seq<T>, fits: (seq<T>, T) -> bool)
    requires IsGreedy(acc, fits)
    requires Chained(cur, fits)
    requires acc != [] ==> !fits(acc[|acc| - 1], cur[0])
    ensures IsGreedy(acc + [cur], fits)
  {
    var gs := acc + [cur];
    forall i | 0 <= i < |gs| - 1 ensures !fits(gs[i], gs[i + 1][0]) {
      if i < |acc| - 1 {
        assert gs[i] == acc[i] && gs[i + 1] == acc[i + 1];
      }
    }
  }

  /** Packing loses and reorders nothing: the lines hold exactly the items, in order. */
  lemma {:induction false} PackConcat<T>(items: seq<T>, fits: (seq<T>, T) -> bool, acc: seq<seq<T>>, cur: seq<T>)
    ensures Concat(Pack(items, fits, acc, cur)) == Concat(acc) + cur + items
    ensures |Pack(items, fits, acc, cur)| >= |acc|
    ensures |Pack(items, fits, acc, cur)| == 0 ==> cur == [] && items == []
    decreases |items|
  {
    if |items| == 0 {
      if cur != [] {
        ConcatSnoc(acc, cur);
      }
    } else {
      var w := items[0];
      var rest := items[1..];
      Regroup(Concat(acc), cur, w, rest, items);
      if cur == [] {
        PackConcat(rest, fits, acc, [w]);
      } else if fits(cur, w) {
        PackConcat(rest, fits, acc, cur + [w]);
      } else {
        PackConcat(rest, fits, acc + [cur], [w]);
        ConcatSnoc(acc, cur);
      }
    }
  }

  /** Moving the first item onto the current line or onto a new one keeps the order. */
  lemma Regroup<T>(done: seq<T>, cur: seq<T>, w: T, rest: seq<T>, items: seq<T>)
    requires |items| > 0 && w == items[0] && rest == items[1..]
    ensures done + (cur + [w]) + rest == done + cur + items
    ensures done + cur + [w] + rest == done + cur + items
    ensures cur == [] ==> done + [w] + rest == done + cur + items
  {
    assert items == [w] + rest;
  }

  lemma ConcatSnoc<T>(acc: seq<seq<T>>, cur: seq<T>)
    ensures Concat(acc + [cur]) == Concat(acc) + cur
  {
    ConcatAppend(acc, [cur]);
    assert Concat([cur]) == cur + Concat([cur][1..]);
    assert [cur][1..] == [];
  }

  /**
   * The first item of line `i` sits at index `LengthSum(gs[..i])` of the
   * items.
   */
  lemma LineHead<T>(gs: seq<seq<T>>, i: nat) returns (k: nat)
    requires i < |gs| && |gs[i]| > 0
    ensures k == LengthSum(gs[..i])
    ensures k < |Concat(gs)| && Concat(gs)[k] == gs[i][0]
  {
    ConcatAppend(gs[..i], gs[i..]);
    assert gs == gs[..i] + gs[i..];
    assert Concat(gs[i..]) == gs[i] + Concat(gs[i + 1..]) by {
      assert gs[i..][1..] == gs[i + 1..];
    }
    k := LengthSum(gs[..i]);
  }
}
