/**
 * The leaves of the tree, read left to right, as runs of cells.  A full scan
 * yields the concatenation of the runs; these lemmas say how the leaf-level
 * operations (search, insert into a leaf, split a leaf) act on that
 * concatenation.
 */
module Runs {
  import opened Node

  function Last(s: seq<Cell>): Cell
    requires |s| > 0
  {
    s[|s| - 1]
  }

  /** The concatenation of the runs: what a scan over the leaf chain yields. */
  function Flatten(ls: seq<seq<Cell>>): seq<Cell> {
    if ls == [] then [] else ls[0] + Flatten(ls[1..])
  }

  /** Both runs are non-empty and every key of `a` is below every key of `b` (given each is sorted). */
  ghost predicate Precedes(a: seq<Cell>, b: seq<Cell>) {
    a != [] && b != [] && Last(a).key < b[0].key
  }

  /**
   * Each run is strictly increasing, and each pair of neighbouring runs is
   * non-empty with every key of the left one below every key of the right one.
   */
  ghost predicate OrderedRuns(ls: seq<seq<Cell>>) {
    && (forall i :: 0 <= i < |ls| ==> StrictlyIncreasing(Keys(ls[i])))
    && (forall i :: 0 <= i < |ls| - 1 ==> Precedes(ls[i], ls[i + 1]))
  }

  /**
   * Run `j` is the one a search for `key` descends into: every run before it
   * ends below `key`, and unless it is the last run its own last key is at
   * least `key`.
   */
  ghost predicate Routed(ls: seq<seq<Cell>>, j: nat, key: Key) {
    && j < |ls|
    && (forall i :: 0 <= i < j ==> ls[i] != [] && Last(ls[i]).key < key)
    && (j < |ls| - 1 ==> ls[j] != [] && Last(ls[j]).key >= key)
  }

  lemma KeysAppend(a: seq<Cell>, b: seq<Cell>)
    ensures Keys(a + b) == Keys(a) + Keys(b)
  {
    assert |Keys(a + b)| == |Keys(a) + Keys(b)|;
    forall t | 0 <= t < |a + b| ensures Keys(a + b)[t] == (Keys(a) + Keys(b))[t] {
      if t < |a| {
      } else {
        assert (a + b)[t] == b[t - |a|];
      }
    }
  }

  lemma {:induction false} FlattenAppend(a: seq<seq<Cell>>, b: seq<seq<Cell>>)
    ensures Flatten(a + b) == Flatten(a) + Flatten(b)
  {
    if a == [] {
      assert a + b == b;
    } else {
      assert (a + b)[1..] == a[1..] + b;
      FlattenAppend(a[1..], b);
    }
  }

  /** A scan is the runs before `j`, then run `j`, then the runs after it. */
  lemma {:induction false} FlattenAround(ls: seq<seq<Cell>>, j: nat)
    requires j < |ls|
    ensures Flatten(ls) == Flatten(ls[..j]) + ls[j] + Flatten(ls[j + 1..])
  {
    var a, m, c := ls[..j], [ls[j]], ls[j + 1..];
    assert ls == a + m + c;
    FlattenAppend(a + m, c);
    FlattenAppend(a, m);
    assert m[1..] == [];
  }

  lemma SortedConcat(a: seq<Key>, b: seq<Key>)
    requires StrictlyIncreasing(a) && StrictlyIncreasing(b)
    requires |a| > 0 && |b| > 0 ==> a[|a| - 1] < b[0]
    ensures StrictlyIncreasing(a + b)
  {
    var s := a + b;
    forall i, j | 0 <= i < j < |s| ensures s[i] < s[j] {
      if j < |a| {
      } else if i >= |a| {
        assert s[i] == b[i - |a|] && s[j] == b[j - |a|];
      } else {
        assert s[i] <= a[|a| - 1];
        assert b[0] <= b[j - |a|];
      }
    }
  }

  /** A scan over ordered runs yields strictly increasing keys. */
  lemma {:induction false} FlattenSorted(ls: seq<seq<Cell>>)
    requires OrderedRuns(ls)
    ensures StrictlyIncreasing(Keys(Flatten(ls)))
  {
    if ls != [] {
      var rest := ls[1..];
      assert OrderedRuns(rest) by {
        forall i | 0 <= i < |rest| - 1 ensures Precedes(rest[i], rest[i + 1]) {
          assert rest[i] == ls[i + 1] && rest[i + 1] == ls[i + 2];
        }
      }
      FlattenSorted(rest);
      KeysAppend(ls[0], Flatten(rest));
      if |rest| > 0 {
        assert Flatten(rest) == rest[0] + Flatten(rest[1..]);
        assert rest[0] == ls[1];
      }
      SortedConcat(Keys(ls[0]), Keys(Flatten(rest)));
    }
  }

  /** If every run ends below `key`, every cell of the scan is below `key`. */
  lemma {:induction false} FlattenBelow(ls: seq<seq<Cell>>, key: Key)
    requires forall i :: 0 <= i < |ls| ==> StrictlyIncreasing(Keys(ls[i]))
    requires forall i :: 0 <= i < |ls| ==> ls[i] != [] && Last(ls[i]).key < key
    ensures forall t :: 0 <= t < |Flatten(ls)| ==> Flatten(ls)[t].key < key
  {
    if ls != [] {
      FlattenBelow(ls[1..], key);
      var s := ls[0];
      forall t | 0 <= t < |s| ensures s[t].key < key {
        assert Keys(s)[t] <= Keys(s)[|s| - 1];
      }
    }
  }

  /** FirstAtLeast is determined by its two defining properties. */
  lemma FirstAtLeastUnique(ks: seq<Key>, key: Key, p: nat)
    requires p <= |ks|
    requires forall t :: 0 <= t < p ==> ks[t] < key
    requires p < |ks| ==> ks[p] >= key
    ensures FirstAtLeast(ks, key) == p
  {
  }

  /**
   * Searching the routed run finds the same position as searching the whole
   * scan, and the key occurs in the scan iff it occurs in that run.
   */
  lemma {:induction false} RunPosition(ls: seq<seq<Cell>>, j: nat, key: Key)
    requires OrderedRuns(ls) && Routed(ls, j, key)
    ensures FirstAtLeast(Keys(Flatten(ls)), key) == |Flatten(ls[..j])| + FirstAtLeast(Keys(ls[j]), key)
    ensures key in Keys(Flatten(ls)) <==> key in Keys(ls[j])
  {
    var a, b, c := Flatten(ls[..j]), ls[j], Flatten(ls[j + 1..]);
    FlattenAround(ls, j);
    KeysAppend(a + b, c);
    KeysAppend(a, b);
    var e := Keys(Flatten(ls));
    assert e == Keys(a) + Keys(b) + Keys(c);
    FlattenBelow(ls[..j], key);
    var q := FirstAtLeast(Keys(b), key);
    if j < |ls| - 1 {
      assert Keys(b)[|b| - 1] >= key;
      assert q < |b|;
    } else {
      assert ls[j + 1..] == [];
      assert c == [];
    }
    FirstAtLeastUnique(e, key, |a| + q);
    FlattenSorted(ls);
    FirstAtLeastFindsKey(e, key);
    FirstAtLeastFindsKey(Keys(b), key);
  }

  lemma InsertedIn3(a: seq<Cell>, b: seq<Cell>, c: seq<Cell>, q: nat, x: Cell)
    requires q <= |b|
    ensures Inserted(a + b + c, |a| + q, x) == a + Inserted(b, q, x) + c
  {
    var l, r := Inserted(a + b + c, |a| + q, x), a + Inserted(b, q, x) + c;
    assert |l| == |r|;
    forall t | 0 <= t < |l| ensures l[t] == r[t] {
      if t < |a| {
      } else if t < |a| + q {
        assert r[t] == Inserted(b, q, x)[t - |a|];
      } else if t == |a| + q {
        assert r[t] == Inserted(b, q, x)[q];
      } else if t < |a| + |b| + 1 {
        assert r[t] == Inserted(b, q, x)[t - |a|];
        assert l[t] == (a + b + c)[t - 1];
      } else {
        assert r[t] == c[t - |a| - |b| - 1];
        assert l[t] == (a + b + c)[t - 1];
      }
    }
  }

  /**
   * Inserting an absent key into the routed run at its search position keeps
   * the runs ordered and inserts the cell into the scan at the scan's own
   * search position.  A run that is not the last one keeps its last key.
   */
  lemma {:induction false} RunsInsert(ls: seq<seq<Cell>>, j: nat, x: Cell)
    requires OrderedRuns(ls) && Routed(ls, j, x.key)
    requires x.key !in Keys(Flatten(ls))
    ensures var q := FirstAtLeast(Keys(ls[j]), x.key);
            var ls' := ls[j := Inserted(ls[j], q, x)];
            && OrderedRuns(ls')
            && Flatten(ls') == Inserted(Flatten(ls), FirstAtLeast(Keys(Flatten(ls)), x.key), x)
            && (j < |ls| - 1 ==> Last(ls'[j]) == Last(ls[j]))
  {
    RunPosition(ls, j, x.key);
    RunsInsertOrder(ls, j, x);
    RunsInsertScan(ls, j, FirstAtLeast(Keys(ls[j]), x.key), x);
  }

  /** The order half of RunsInsert. */
  lemma {:induction false} RunsInsertOrder(ls: seq<seq<Cell>>, j: nat, x: Cell)
    requires OrderedRuns(ls) && Routed(ls, j, x.key)
    requires x.key !in Keys(ls[j])
    ensures var q := FirstAtLeast(Keys(ls[j]), x.key);
            var ls' := ls[j := Inserted(ls[j], q, x)];
            && OrderedRuns(ls')
            && (j < |ls| - 1 ==> Last(ls'[j]) == Last(ls[j]))
  {
    var key := x.key;
    var b := ls[j];
    var q := FirstAtLeast(Keys(b), key);
    var b' := Inserted(b, q, x);
    var ls': seq<seq<Cell>> := ls[j := b'];
    InsertKeepsOrder(Keys(b), key);
    KeysInserted(b, q, x);
    FirstAtLeastFindsKey(Keys(b), key);
    if j < |ls| - 1 {
      assert Keys(b)[|b| - 1] >= key;
      assert q < |b|;
      assert Last(b') == Last(b);
    }
    forall i | 0 <= i < |ls'| - 1 ensures Precedes(ls'[i], ls'[i + 1]) {
      if i + 1 == j {
        assert ls'[i] == ls[i] && Precedes(ls[i], ls[j]);
        if q > 0 {
          assert b'[0] == b[0];
        }
      } else if i == j {
        assert ls'[i + 1] == ls[i + 1] && Precedes(ls[i], ls[i + 1]);
        assert Keys(b)[|b| - 1] != key;
      } else {
        assert Precedes(ls[i], ls[i + 1]);
      }
    }
  }

  /** Inserting into run j inserts into the scan after the cells of the runs before it. */
  lemma {:induction false} RunsInsertScan(ls: seq<seq<Cell>>, j: nat, q: nat, x: Cell)
    requires j < |ls| && q <= |ls[j]|
    ensures |Flatten(ls[..j])| + q <= |Flatten(ls)|
    ensures Flatten(ls[j := Inserted(ls[j], q, x)]) == Inserted(Flatten(ls), |Flatten(ls[..j])| + q, x)
  {
    var ls' := ls[j := Inserted(ls[j], q, x)];
    assert ls'[..j] == ls[..j] && ls'[j + 1..] == ls[j + 1..];
    FlattenAround(ls, j);
    FlattenAround(ls', j);
    InsertedIn3(Flatten(ls[..j]), ls[j], Flatten(ls[j + 1..]), q, x);
  }

  /** Cutting run `j` in two leaves the scan unchanged. */
  lemma {:induction false} SplitRunFlatten(ls: seq<seq<Cell>>, j: nat, left: nat)
    requires j < |ls| && left <= |ls[j]|
    ensures Flatten(ls[..j] + [ls[j][..left], ls[j][left..]] + ls[j + 1..]) == Flatten(ls)
  {
    var l, r := ls[j][..left], ls[j][left..];
    var a, c := ls[..j], ls[j + 1..];
    assert [l, r] == [l] + [r];
    FlattenAppend(a + [l, r], c);
    FlattenAppend(a, [l] + [r]);
    FlattenAppend([l], [r]);
    assert [l][1..] == [] && [r][1..] == [];
    assert Flatten([l]) == l && Flatten([r]) == r;
    assert l + r == ls[j];
    FlattenAround(ls, j);
  }

  /**
   * Cutting one run of at least two cells in two, the left part keeping
   * `left` cells, keeps the runs ordered and leaves the scan unchanged.
   */
  lemma {:induction false} SplitRun(ls: seq<seq<Cell>>, j: nat, left: nat)
    requires OrderedRuns(ls) && j < |ls| && 1 <= left < |ls[j]|
    ensures var ls' := ls[..j] + [ls[j][..left], ls[j][left..]] + ls[j + 1..];
            && OrderedRuns(ls')
            && Flatten(ls') == Flatten(ls)
  {
    SplitRunSorted(ls, j, left);
    SplitRunPrecedes(ls, j, left);
    SplitRunFlatten(ls, j, left);
  }

  /** Each run after the cut is strictly increasing. */
  lemma {:induction false} SplitRunSorted(ls: seq<seq<Cell>>, j: nat, left: nat)
    requires OrderedRuns(ls) && j < |ls| && 1 <= left < |ls[j]|
    ensures var ls' := ls[..j] + [ls[j][..left], ls[j][left..]] + ls[j + 1..];
            forall i :: 0 <= i < |ls'| ==> StrictlyIncreasing(Keys(ls'[i]))
  {
    var b := ls[j];
    var l, r := b[..left], b[left..];
    var ls' := ls[..j] + [l, r] + ls[j + 1..];
    forall i | 0 <= i < |ls'| ensures StrictlyIncreasing(Keys(ls'[i])) {
      if i < j {
        assert ls'[i] == ls[i];
      } else if i == j {
        assert forall t :: 0 <= t < |l| ==> Keys(l)[t] == Keys(b)[t];
      } else if i == j + 1 {
        assert forall t :: 0 <= t < |r| ==> Keys(r)[t] == Keys(b)[left + t];
      } else {
        assert ls'[i] == ls[i - 1];
      }
    }
  }

  /** Neighbouring runs after the cut are ordered. */
  lemma {:induction false} SplitRunPrecedes(ls: seq<seq<Cell>>, j: nat, left: nat)
    requires OrderedRuns(ls) && j < |ls| && 1 <= left < |ls[j]|
    ensures var ls' := ls[..j] + [ls[j][..left], ls[j][left..]] + ls[j + 1..];
            forall i :: 0 <= i < |ls'| - 1 ==> Precedes(ls'[i], ls'[i + 1])
  {
    var b := ls[j];
    var l, r := b[..left], b[left..];
    var ls' := ls[..j] + [l, r] + ls[j + 1..];
    assert |ls'| == |ls| + 1;
    forall i | 0 <= i < |ls'| - 1 ensures Precedes(ls'[i], ls'[i + 1]) {
      if i + 1 == j {
        assert ls'[i] == ls[i] && ls'[j] == l;
        assert l[0] == b[0] && Precedes(ls[i], ls[j]);
      } else if i == j {
        assert ls'[i] == l && ls'[i + 1] == r;
        assert Keys(b)[left - 1] < Keys(b)[left];
      } else if i == j + 1 {
        assert ls'[i] == r && ls'[i + 1] == ls[j + 1];
        assert Last(r) == Last(b) && Precedes(ls[j], ls[j + 1]);
      } else if i < j {
        assert ls'[i] == ls[i] && ls'[i + 1] == ls[i + 1];
        assert Precedes(ls[i], ls[i + 1]);
      } else {
        assert ls'[i] == ls[i - 1] && ls'[i + 1] == ls[i];
        assert Precedes(ls[i - 1], ls[i]);
      }
    }
  }

  /**
   * Inserting an absent cell into the routed run at its search position and
   * cutting that run after `left` cells keeps the runs ordered and inserts
   * the cell into the scan at its sorted position.
   */
  lemma {:induction false} InsertAndSplit(ls: seq<seq<Cell>>, j: nat, x: Cell, left: nat)
    requires OrderedRuns(ls) && Routed(ls, j, x.key)
    requires x.key !in Keys(Flatten(ls))
    requires 1 <= left <= |ls[j]|
    ensures var all := Inserted(ls[j], FirstAtLeast(Keys(ls[j]), x.key), x);
            var ls2 := ls[..j] + [all[..left], all[left..]] + ls[j + 1..];
            && OrderedRuns(ls2)
            && Flatten(ls2) == Inserted(Flatten(ls), FirstAtLeast(Keys(Flatten(ls)), x.key), x)
            && (j < |ls| - 1 ==> Last(all[left..]) == Last(ls[j]))
  {
    var all := Inserted(ls[j], FirstAtLeast(Keys(ls[j]), x.key), x);
    RunsInsert(ls, j, x);
    var ls1 := ls[j := all];
    SplitRun(ls1, j, left);
    assert ls1[..j] == ls[..j] && ls1[j + 1..] == ls[j + 1..];
  }

  /** Over ordered runs the last keys strictly increase from run to run. */
  lemma {:induction false} LastsIncreasing(ls: seq<seq<Cell>>, i: nat, k: nat)
    requires OrderedRuns(ls) && i < k < |ls|
    ensures ls[i] != [] && ls[k] != [] && Last(ls[i]).key < Last(ls[k]).key
    decreases k - i
  {
    assert Precedes(ls[i], ls[i + 1]);
    assert Keys(ls[i + 1])[0] <= Keys(ls[i + 1])[|ls[i + 1]| - 1];
    if i + 1 < k {
      LastsIncreasing(ls, i + 1, k);
    }
  }

  /** The scan up to and including run i is the scan before it followed by run i. */
  lemma ScanStep(ls: seq<seq<Cell>>, i: nat)
    requires i < |ls|
    ensures Flatten(ls[..i + 1]) == Flatten(ls[..i]) + ls[i]
  {
    assert ls[..i + 1] == ls[..i] + [ls[i]];
    FlattenAppend(ls[..i], [ls[i]]);
    assert [ls[i]][1..] == [];
  }

  /** Cell c of run i sits in the scan after the cells of the runs before it. */
  lemma ScanAt(ls: seq<seq<Cell>>, i: nat, c: nat)
    requires i < |ls| && c < |ls[i]|
    ensures |Flatten(ls[..i])| + c < |Flatten(ls)|
    ensures Flatten(ls)[|Flatten(ls[..i])| + c] == ls[i][c]
  {
    FlattenAround(ls, i);
  }
}
