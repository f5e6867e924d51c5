/** The dashboard's counters: tickets per status, the type histogram and the
    top-five department ranking. */
module Histograms {
  import opened Wrappers
  import opened Seqs
  import opened Tickets

  // ---------------------------------------------------------------- status counts

  /** The status column of the snapshot, in row order. */
  function StatusColumn(data: seq<Ticket>): seq<Option<string>> {
    seq(|data|, i requires 0 <= i < |data| => data[i].status)
  }

  /** The number of rows whose status is `status`. */
  function CountStatus(data: seq<Ticket>, status: string): (n: nat)
    ensures n <= |data|
  {
    CountOf(StatusColumn(data), Some(status))
  }

  /** Reading one more row adds one to the count of its status and nothing to the others. */
  lemma CountStatusLast(data: seq<Ticket>, i: nat)
    requires i < |data|
    ensures forall s ::
      CountStatus(data[..i + 1], s) == CountStatus(data[..i], s) + (if data[i].status == Some(s) then 1 else 0)
  {
    var col := StatusColumn(data[..i + 1]);
    assert col[..i] == StatusColumn(data[..i]);
    assert col[i] == data[i].status;
  }

  /** `getStatusCounts`: a dictionary with the five known statuses as keys, each row
      counted under its status when that status is one of them. */
  method StatusCounts(data: seq<Ticket>) returns (counts: map<string, nat>)
    ensures counts.Keys == set s | s in Statuses
    ensures forall s :: s in counts ==> counts[s] == CountStatus(data, s)
  {
    counts := map["Pending" := 0, "Scheduled" := 0, "In Progress" := 0, "Waiting" := 0, "Completed" := 0];
    for i := 0 to |data|
      invariant counts.Keys == set s | s in Statuses
      invariant forall s :: s in counts ==> counts[s] == CountStatus(data[..i], s)
    {
      var status := data[i].status;
      CountStatusLast(data, i);
      if status.Some? && status.value in counts {
        counts := counts[status.value := counts[status.value] + 1];
      }
    }
    assert data[..|data|] == data;
  }

  /** Each row is counted under at most one status, so the five counts never exceed the
      number of rows. */
  lemma {:induction false} StatusCountsBounded(data: seq<Ticket>)
    ensures CountStatus(data, "Pending") + CountStatus(data, "Scheduled") + CountStatus(data, "In Progress")
          + CountStatus(data, "Waiting") + CountStatus(data, "Completed") <= |data|
    decreases |data|
  {
    if data != [] {
      StatusCountsBounded(data[..|data| - 1]);
      CountStatusLast(data, |data| - 1);
      assert data[..|data|] == data;
    }
  }

  // ---------------------------------------------------------------- histograms

  /** One `[key, count]` pair of `Object.entries(acc)`. */
  datatype Entry = Entry(key: string, count: nat)

  /** How often `k` occurs in `keys`. */
  function CountOf<K(==)>(keys: seq<K>, k: K): (n: nat)
    ensures n <= |keys|
    decreases |keys|
  {
    if keys == [] then 0
    else CountOf(keys[..|keys| - 1], k) + (if keys[|keys| - 1] == k then 1 else 0)
  }

  /** A key that does not occur has count zero. */
  lemma {:induction false} CountOfAbsent(keys: seq<string>, k: string)
    requires k !in keys
    ensures CountOf(keys, k) == 0
    decreases |keys|
  {
    if keys != [] {
      assert keys == keys[..|keys| - 1] + [keys[|keys| - 1]];
      CountOfAbsent(keys[..|keys| - 1], k);
    }
  }

  /** Reading one more key: the distinct keys grow by it if it is new, and only its count
      goes up, by one. */
  lemma TallyStep(keys: seq<string>, i: nat)
    requires i < |keys|
    ensures Distinct(keys[..i + 1])
      == if keys[i] in keys[..i] then Distinct(keys[..i]) else Distinct(keys[..i]) + [keys[i]]
    ensures forall k :: k in keys[..i + 1] <==> k in keys[..i] || k == keys[i]
    ensures forall k :: CountOf(keys[..i + 1], k) == CountOf(keys[..i], k) + (if k == keys[i] then 1 else 0)
  {
    assert keys[..i + 1][..i] == keys[..i];
    assert keys[..i + 1] == keys[..i] + [keys[i]];
    DistinctSpec(keys[..i]);
  }

  /** The entries of the reduce's accumulator: one per distinct key, in the order keys were
      first added, with the number of times the key occurs. */
  function TallyOf(keys: seq<string>): seq<Entry> {
    var ds := Distinct(keys);
    seq(|ds|, j requires 0 <= j < |ds| => Entry(ds[j], CountOf(keys, ds[j])))
  }

  /** The reduce's state after the first `i` keys: `order` lists the keys seen so far in
      the order they were first added, and `acc` maps each of them to its count. */
  ghost predicate TallyState(keys: seq<string>, i: nat, acc: map<string, nat>, order: seq<string>)
    requires i <= |keys|
  {
    && order == Distinct(keys[..i])
    && (forall k :: k in acc <==> k in keys[..i])
    && (forall k :: k in acc ==> acc[k] == CountOf(keys[..i], k))
  }

  /** One step of the reduce: `acc[key] = (acc[key] || 0) + 1`, a new key going last. */
  lemma TallyAdvance(keys: seq<string>, i: nat, acc: map<string, nat>, order: seq<string>)
    requires i < |keys| && TallyState(keys, i, acc, order)
    ensures var k := keys[i];
      TallyState(keys, i + 1, acc[k := if k in acc then acc[k] + 1 else 1],
        if k in acc then order else order + [k])
  {
    TallyStep(keys, i);
    if keys[i] !in acc {
      CountOfAbsent(keys[..i], keys[i]);
    }
  }

  /** The `reduce((acc, t) => { acc[key] = (acc[key] || 0) + 1; ... }, {})` followed by
      `Object.entries`: `acc` is the dictionary and `order` its insertion order. */
  method Tally(keys: seq<string>) returns (entries: seq<Entry>)
    ensures entries == TallyOf(keys)
  {
    var acc: map<string, nat> := map[];
    var order: seq<string> := [];
    for i := 0 to |keys|
      invariant TallyState(keys, i, acc, order)
    {
      var k := keys[i];
      TallyAdvance(keys, i, acc, order);
      if k in acc {
        acc := acc[k := acc[k] + 1];
      } else {
        acc := acc[k := 1];
        order := order + [k];
      }
    }
    assert keys[..|keys|] == keys;
    DistinctSpec(keys);
    entries := seq(|order|, j requires 0 <= j < |order| => Entry(order[j], acc[order[j]]));
    forall j | 0 <= j < |order| ensures entries[j] == TallyOf(keys)[j] {
      assert order[j] in keys;
    }
  }

  /** The sum of the counts. */
  function Total(es: seq<Entry>): nat
    decreases |es|
  {
    if es == [] then 0 else Total(es[..|es| - 1]) + es[|es| - 1].count
  }

  /** The counts of keys listed in `ks`, summed over `ks`. */
  function CountsOver(ks: seq<string>, keys: seq<string>): nat
    decreases |ks|
  {
    if ks == [] then 0 else CountsOver(ks[..|ks| - 1], keys) + CountOf(keys, ks[|ks| - 1])
  }

  /** How often `x` occurs in `ks`. */
  lemma {:induction false} CountsOverAppend(ks: seq<string>, keys: seq<string>, x: string)
    ensures CountsOver(ks, keys + [x]) == CountsOver(ks, keys) + CountOf(ks, x)
    decreases |ks|
  {
    if ks != [] {
      CountsOverAppend(ks[..|ks| - 1], keys, x);
      assert (keys + [x])[..|keys + [x]| - 1] == keys;
    }
  }

  /** A key occurs once in a list without repeats that holds it. */
  lemma {:induction false} CountOfOnce(ks: seq<string>, x: string)
    requires NoRepeats(ks)
    ensures CountOf(ks, x) == if x in ks then 1 else 0
    decreases |ks|
  {
    if ks != [] {
      var init := ks[..|ks| - 1];
      CountOfOnce(init, x);
      assert ks == init + [ks[|ks| - 1]];
      if ks[|ks| - 1] == x {
        assert x !in init;
      }
    }
  }

  /** Summing the counts over a repeat-free list holding every key accounts for each key once. */
  lemma {:induction false} CountsOverCover(ks: seq<string>, keys: seq<string>)
    requires NoRepeats(ks)
    requires forall k :: k in keys ==> k in ks
    ensures CountsOver(ks, keys) == |keys|
    decreases |keys|
  {
    if keys == [] {
      CountsOverEmpty(ks);
    } else {
      var init := keys[..|keys| - 1];
      assert keys == init + [keys[|keys| - 1]];
      CountsOverCover(ks, init);
      CountsOverAppend(ks, init, keys[|keys| - 1]);
      CountOfOnce(ks, keys[|keys| - 1]);
    }
  }

  lemma {:induction false} CountsOverEmpty(ks: seq<string>)
    ensures CountsOver(ks, []) == 0
    decreases |ks|
  {
    if ks != [] {
      CountsOverEmpty(ks[..|ks| - 1]);
    }
  }

  lemma {:induction false} TotalOfTally(ds: seq<string>, keys: seq<string>)
    ensures Total(seq(|ds|, j requires 0 <= j < |ds| => Entry(ds[j], CountOf(keys, ds[j])))) == CountsOver(ds, keys)
    decreases |ds|
  {
    if ds != [] {
      var init := ds[..|ds| - 1];
      TotalOfTally(init, keys);
      var es := seq(|ds|, j requires 0 <= j < |ds| => Entry(ds[j], CountOf(keys, ds[j])));
      assert es[..|es| - 1] == seq(|init|, j requires 0 <= j < |init| => Entry(init[j], CountOf(keys, init[j])));
    }
  }

  /** The histogram's counts add up to the number of keys: each row is counted once. */
  lemma TallyTotal(keys: seq<string>)
    ensures Total(TallyOf(keys)) == |keys|
  {
    DistinctSpec(keys);
    TotalOfTally(Distinct(keys), keys);
    CountsOverCover(Distinct(keys), keys);
  }

  /** The histogram lists every key exactly once with its number of occurrences, and its
      counts add up to the number of rows: each row is counted exactly once. */
  lemma TallySpec(keys: seq<string>)
    ensures var es := TallyOf(keys);
      && (forall j :: 0 <= j < |es| ==> es[j].count == CountOf(keys, es[j].key) && es[j].key in keys)
      && (forall k :: k in keys <==> exists j :: 0 <= j < |es| && es[j].key == k)
      && (forall i, j :: 0 <= i < j < |es| ==> es[i].key != es[j].key)
      && Total(es) == |keys|
  {
    var ds := Distinct(keys);
    DistinctSpec(keys);
    var es := TallyOf(keys);
    assert |es| == |ds| && forall j :: 0 <= j < |es| ==> es[j].key == ds[j];
    forall k | k in keys ensures exists j :: 0 <= j < |es| && es[j].key == k {
      var j :| 0 <= j < |ds| && ds[j] == k;
      assert es[j].key == k;
    }
    TallyTotal(keys);
  }

  // ---------------------------------------------------------------- ranking

  /** Counts never increase along the sequence. */
  ghost predicate SortedByCount(es: seq<Entry>) {
    forall i, j :: 0 <= i < j < |es| ==> es[i].count >= es[j].count
  }

  /** Inserts `x` before the first entry whose count is not larger, so that among equal
      counts the earlier entry stays first. */
  function InsertByCount(x: Entry, es: seq<Entry>): (r: seq<Entry>)
    ensures |r| == |es| + 1
    ensures multiset(r) == multiset(es) + multiset{x}
    decreases |es|
  {
    if es == [] || es[0].count <= x.count then [x] + es
    else
      assert es == [es[0]] + es[1..];
      [es[0]] + InsertByCount(x, es[1..])
  }

  /** Inserting into a sorted sequence keeps it sorted. */
  lemma {:induction false} InsertKeepsSorted(x: Entry, es: seq<Entry>)
    requires SortedByCount(es)
    ensures SortedByCount(InsertByCount(x, es))
    decreases |es|
  {
    if es != [] && es[0].count > x.count {
      InsertKeepsSorted(x, es[1..]);
      var tail := InsertByCount(x, es[1..]);
      InsertKeepsBound(x, es[1..], es[0].count);
      var r := [es[0]] + tail;
      forall i, j | 0 <= i < j < |r| ensures r[i].count >= r[j].count {
        assert r[j] == tail[j - 1];
        if i > 0 {
          assert r[i] == tail[i - 1];
        }
      }
    }
  }

  /** Inserting an entry under a bound into entries under it keeps everything under it. */
  lemma {:induction false} InsertKeepsBound(x: Entry, es: seq<Entry>, b: nat)
    requires x.count <= b && forall k :: 0 <= k < |es| ==> es[k].count <= b
    ensures forall k :: 0 <= k < |InsertByCount(x, es)| ==> InsertByCount(x, es)[k].count <= b
    decreases |es|
  {
    if es != [] && es[0].count > x.count {
      InsertKeepsBound(x, es[1..], b);
    }
  }

  /** `entries.sort((a, b) => b[1] - a[1])`: a stable sort by descending count. */
  function SortByCount(es: seq<Entry>): (r: seq<Entry>)
    ensures multiset(r) == multiset(es)
    ensures SortedByCount(r)
    decreases |es|
  {
    if es == [] then []
    else
      assert es == [es[0]] + es[1..];
      InsertKeepsSorted(es[0], SortByCount(es[1..]));
      InsertByCount(es[0], SortByCount(es[1..]))
  }

  /** The entries whose count is `c`: one tie group. */
  function HasCount(c: nat): Entry -> bool {
    (e: Entry) => e.count == c
  }

  /** Insertion goes before the first entry that does not count more, so `x` lands in front
      of its own tie group and every other tie group is untouched. */
  lemma {:induction false} InsertByCountStable(x: Entry, es: seq<Entry>, c: nat)
    ensures Select(InsertByCount(x, es), HasCount(c))
      == (if x.count == c then [x] else []) + Select(es, HasCount(c))
    decreases |es|
  {
    var p := HasCount(c);
    if es == [] || es[0].count <= x.count {
      SelectCons(x, es, p);
    } else {
      var tail := InsertByCount(x, es[1..]);
      assert InsertByCount(x, es) == [es[0]] + tail;
      assert es == [es[0]] + es[1..];
      InsertByCountStable(x, es[1..], c);
      SelectCons(es[0], tail, p);
      SelectCons(es[0], es[1..], p);
      var front := if p(es[0]) then [es[0]] else [];
      assert Select(InsertByCount(x, es), p) == front + Select(tail, p);
      assert Select(es, p) == front + Select(es[1..], p);
      if x.count == c {
        assert front == [];
      }
    }
  }

  /** The sort is stable: within every tie group the entries keep their input order. */
  lemma {:induction false} SortByCountStable(es: seq<Entry>, c: nat)
    ensures Select(SortByCount(es), HasCount(c)) == Select(es, HasCount(c))
    decreases |es|
  {
    if es != [] {
      SortByCountStable(es[1..], c);
      InsertByCountStable(es[0], SortByCount(es[1..]), c);
      SelectCons(es[0], es[1..], HasCount(c));
      assert es == [es[0]] + es[1..];
    }
  }

  /** `.slice(0, 5)` of the sorted entries. */
  function TopFive(es: seq<Entry>): seq<Entry> {
    var sorted := SortByCount(es);
    sorted[..if |sorted| < 5 then |sorted| else 5]
  }

  /** In a sorted sequence every entry before position `m` counts at least as much as
      every entry from `m` on. */
  lemma SortedSplit(sorted: seq<Entry>, m: nat, x: Entry, y: Entry)
    requires SortedByCount(sorted) && m <= |sorted|
    requires x in sorted[..m] && y in sorted[m..]
    ensures y.count <= x.count
  {
    var a :| 0 <= a < m && sorted[..m][a] == x;
    var b :| 0 <= b < |sorted| - m && sorted[m..][b] == y;
    assert sorted[a] == x && sorted[m + b] == y;
  }

  /** A prefix of a sorted sequence is sorted, is drawn from it, and shows entries counting
      at least as much as any entry it leaves out. */
  lemma SortedPrefix(sorted: seq<Entry>, m: nat)
    requires SortedByCount(sorted) && m <= |sorted|
    ensures SortedByCount(sorted[..m])
    ensures multiset(sorted[..m]) <= multiset(sorted)
    ensures forall y, x :: y in sorted && y !in sorted[..m] && x in sorted[..m] ==> y.count <= x.count
  {
    var r := sorted[..m];
    assert sorted == r + sorted[m..];
    forall y, x | y in sorted && y !in r && x in r ensures y.count <= x.count {
      assert y in sorted[m..];
      SortedSplit(sorted, m, x, y);
    }
  }

  /** The ranking has at most five entries, sorted by count, drawn from the histogram; every
      entry left out has a count no larger than any entry shown. */
  lemma TopFiveSpec(es: seq<Entry>)
    ensures var r := TopFive(es);
      && |r| == (if |es| < 5 then |es| else 5)
      && SortedByCount(r)
      && multiset(r) <= multiset(es)
      && forall y, x :: y in es && y !in r && x in r ==> y.count <= x.count
  {
    var sorted := SortByCount(es);
    SortedPrefix(sorted, if |sorted| < 5 then |sorted| else 5);
    forall y | y in es ensures y in sorted {
      assert y in multiset(es);
    }
  }

  /** Ties at the cut-off go to the entries that came first: the shown entries of each
      count are the first ones of that count in the input order. */
  lemma TopFiveKeepsTieOrder(es: seq<Entry>, c: nat)
    ensures Select(TopFive(es), HasCount(c)) <= Select(es, HasCount(c))
  {
    var sorted := SortByCount(es);
    var m := if |sorted| < 5 then |sorted| else 5;
    assert sorted == sorted[..m] + sorted[m..];
    SelectAppend(sorted[..m], sorted[m..], HasCount(c));
    SortByCountStable(es, c);
  }

  /** The department card: the five departments with the most tickets. */
  function DepartmentRanking(data: seq<Ticket>): seq<Entry> {
    TopFive(TallyOf(DeptKeys(data)))
  }

  /** The keys an entry list shows, in order. */
  function Shown(r: seq<Entry>): seq<string> {
    seq(|r|, i requires 0 <= i < |r| => r[i].key)
  }

  /** Every entry's key is shown. */
  lemma ShownKeys(r: seq<Entry>)
    ensures forall e :: e in r ==> e.key in Shown(r)
  {
    forall e | e in r ensures e.key in Shown(r) {
      var n :| 0 <= n < |r| && r[n] == e;
      assert Shown(r)[n] == e.key;
    }
  }

  /** Every entry of the top five of a histogram counts its key. */
  lemma TopOfTallyCounts(keys: seq<string>)
    ensures forall e :: e in TopFive(TallyOf(keys)) ==> e.key in keys && e.count == CountOf(keys, e.key)
  {
    var es := TallyOf(keys);
    TallySpec(keys);
    TopFiveSpec(es);
    forall e | e in TopFive(es) ensures e in es {
      assert e in multiset(TopFive(es));
    }
  }

  /** No key left out of the top five of a histogram occurs more often than one shown. */
  lemma TopOfTallyLeavesLess(keys: seq<string>)
    ensures forall k, e :: k in keys && k !in Shown(TopFive(TallyOf(keys))) && e in TopFive(TallyOf(keys)) ==>
      CountOf(keys, k) <= e.count
  {
    var es := TallyOf(keys);
    var r := TopFive(es);
    DistinctSpec(keys);
    TopFiveSpec(es);
    ShownKeys(r);
    forall k, e | k in keys && k !in Shown(r) && e in r ensures CountOf(keys, k) <= e.count {
      var j :| 0 <= j < |Distinct(keys)| && Distinct(keys)[j] == k;
      assert es[j] == Entry(k, CountOf(keys, k));
      assert es[j] !in r;
    }
  }

  /** The card shows min(5, number of departments) departments, each with its number of
      tickets, and no department left off the card has more tickets than one shown. */
  lemma DepartmentRankingSpec(data: seq<Ticket>)
    ensures var keys := DeptKeys(data);
      var r := DepartmentRanking(data);
      && |r| == (if |Distinct(keys)| < 5 then |Distinct(keys)| else 5)
      && (forall e :: e in r ==> e.key in keys && e.count == CountOf(keys, e.key))
      && (forall k, e :: k in keys && k !in Shown(r) && e in r ==> CountOf(keys, k) <= e.count)
  {
    var keys := DeptKeys(data);
    TopFiveSpec(TallyOf(keys));
    TopOfTallyCounts(keys);
    TopOfTallyLeavesLess(keys);
  }
}
