/** The bar store of the live trading engine: time-bucketed bars held newest-first,
    and the merge that folds a freshly fetched, newest-first batch into them.

    A bar's subbars are held newest-first as well: index 0 is the latest sample,
    the last index the oldest one, and adding a subbar puts it at index 0. */
module Bars {

  /** One finer-grained sample inside a bucket. Only its timestamp and its
      opening price are modelled; high, low, close and volume are not. */
  datatype Sample = Sample(tstamp: int, open: real)

  /** A time bucket: its start timestamp, its opening price, its subbars
      (newest-first) and the flag telling the strategy it moved since the last tick. */
  datatype Bar = Bar(tstamp: int, open: real, subbars: seq<Sample>, didChange: bool)

  /** Strictly decreasing timestamps from index 0: newest first, no duplicates. */
  predicate NewestFirst(s: seq<Sample>)
  {
    forall i, j :: 0 <= i < j < |s| ==> s[i].tstamp > s[j].tstamp
  }

  /** Buckets in strictly decreasing start order from index 0. */
  predicate Descending(bars: seq<Bar>)
  {
    forall i, j :: 0 <= i < j < |bars| ==> bars[i].tstamp > bars[j].tstamp
  }

  /** The oldest sample of a newest-first list (Python's `subbars[-1]`). */
  function Oldest(s: seq<Sample>): Sample
    requires s != []
  {
    s[|s| - 1]
  }

  /** The samples of `s` older than `t`, in their order in `s`. */
  function OlderThan(s: seq<Sample>, t: int): seq<Sample>
  {
    if s == [] then []
    else OlderThan(s[..|s| - 1], t) + (if s[|s| - 1].tstamp < t then [s[|s| - 1]] else [])
  }

  /** The samples of `s` newer than `t`, in their order in `s`. */
  function NewerThan(s: seq<Sample>, t: int): seq<Sample>
  {
    if s == [] then []
    else NewerThan(s[..|s| - 1], t) + (if s[|s| - 1].tstamp > t then [s[|s| - 1]] else [])
  }

  lemma {:induction false} OlderThanMembers(s: seq<Sample>, t: int)
    ensures forall x :: x in OlderThan(s, t) <==> x in s && x.tstamp < t
  {
    if s != [] {
      assert s == s[..|s| - 1] + [s[|s| - 1]];
      OlderThanMembers(s[..|s| - 1], t);
    }
  }

  lemma {:induction false} NewerThanMembers(s: seq<Sample>, t: int)
    ensures forall x :: x in NewerThan(s, t) <==> x in s && x.tstamp > t
  {
    if s != [] {
      assert s == s[..|s| - 1] + [s[|s| - 1]];
      NewerThanMembers(s[..|s| - 1], t);
    }
  }

  /** Where the copy of the head's own samples stops. Starting just before index
      `k` and walking towards index 0 (from older to newer samples), the walk goes
      on while a sample is older than `bt` and stops at the first one that is not.
      The result `j` is the index of the newest head sample that is kept. */
  function ScanDown(h: seq<Sample>, bt: int, k: nat): (j: nat)
    requires k < |h|
    ensures j <= k
    ensures forall i :: j <= i < k ==> h[i].tstamp < bt
    ensures j > 0 ==> h[j - 1].tstamp >= bt
    decreases k
  {
    if k == 0 then 0
    else if h[k - 1].tstamp < bt then ScanDown(h, bt, k - 1)
    else k
  }

  /** The samples that `add_subbar` takes from `s` when `s` is visited oldest
      first and a sample is taken only when it is strictly newer than the newest
      sample taken so far (initially one with timestamp `t`). Newest-first. */
  function Ascent(s: seq<Sample>, t: int): seq<Sample>
  {
    if s == [] then []
    else
      var x := s[|s| - 1];
      if x.tstamp > t then Ascent(s[..|s| - 1], x.tstamp) + [x]
      else Ascent(s[..|s| - 1], t)
  }

  /** What the running-newest walk takes comes from `s` and is newer than the
      starting point. */
  lemma {:induction false} AscentMembers(s: seq<Sample>, t: int)
    ensures forall x :: x in Ascent(s, t) ==> x in s && x.tstamp > t
  {
    if s != [] {
      var init, x := s[..|s| - 1], s[|s| - 1];
      assert s == init + [x];
      AscentMembers(init, if x.tstamp > t then x.tstamp else t);
    }
  }

  /** What the running-newest walk takes is strictly newest-first, whatever
      order `s` has. */
  lemma {:induction false} AscentOrdered(s: seq<Sample>, t: int)
    ensures NewestFirst(Ascent(s, t))
  {
    if s != [] {
      var init, x := s[..|s| - 1], s[|s| - 1];
      if x.tstamp > t {
        AscentOrdered(init, x.tstamp);
        AscentMembers(init, x.tstamp);
        NewestFirstAppend(Ascent(init, x.tstamp), [x]);
      } else {
        AscentOrdered(init, t);
      }
    }
  }

  /** The walk takes the oldest sample of `s` whenever that one is newer than
      the starting point, and it stays the oldest of what is taken. */
  lemma AscentKeepsOldest(s: seq<Sample>, t: int)
    requires s != [] && Oldest(s).tstamp > t
    ensures Ascent(s, t) != [] && Oldest(Ascent(s, t)) == Oldest(s)
  {
    var a := Ascent(s[..|s| - 1], Oldest(s).tstamp);
    assert Ascent(s, t) == a + [Oldest(s)];
  }

  /** Subbars of the bar rebuilt when head `h` and incoming `bs` are two partial
      views of one bucket: seeded with the head's oldest sample, then the head's
      own samples older than the incoming oldest one, then the incoming samples
      that are newer than everything taken so far. The result always ends with
      the head's oldest sample, the seed of the rebuilt bar. */
  function MergedSubbars(h: seq<Sample>, bs: seq<Sample>): (r: seq<Sample>)
    requires h != [] && bs != []
    ensures r != [] && Oldest(r) == Oldest(h)
  {
    var j := ScanDown(h, Oldest(bs).tstamp, |h| - 1);
    var m := Ascent(bs, h[j].tstamp) + h[j..];
    assert m[|m| - 1] == h[j..][|h| - 1 - j];
    m
  }

  /** What the head `head` becomes when bar `b` of the same bucket arrives. */
  function Refine(head: Bar, b: Bar): (r: Bar)
    requires head.subbars != [] && b.subbars != []
    ensures r.tstamp == b.tstamp && r.subbars != []
  {
    if Oldest(b.subbars).tstamp == Oldest(head.subbars).tstamp then b
    else Bar(b.tstamp, Oldest(head.subbars).open, MergedSubbars(head.subbars, b.subbars), true)
  }

  /** Builds the merged bar of trade_engine.py:120-133: a new bar seeded from the
      head's oldest subbar, then `add_subbar` for the head's older samples (with a
      break) and for the incoming samples (with a skip). */
  method MergeSameBucket(head: Bar, b: Bar) returns (merged: Bar)
    requires head.subbars != [] && b.subbars != []
    ensures merged == Bar(b.tstamp, Oldest(head.subbars).open, MergedSubbars(head.subbars, b.subbars), true)
    ensures Oldest(merged.subbars) == Oldest(head.subbars)
    ensures NewestFirst(head.subbars) ==> NewestFirst(merged.subbars)
  {
    var h, bs := head.subbars, b.subbars;
    var first := Oldest(h);
    var subs, k := CopyOlderHeadSamples(h, Oldest(bs).tstamp);
    ghost var kept := subs;
    subs := AddNewerSamples(bs, subs);
    assert Oldest(subs) == Oldest(h) by {
      assert subs[|subs| - 1] == kept[|kept| - 1];
    }
    assert NewestFirst(h) ==> NewestFirst(subs) by {
      if NewestFirst(h) {
        MergedSubbarsOrdered(h, bs);
      }
    }
    merged := Bar(b.tstamp, first.open, subs, true);
  }

  /** The first loop of the merge: starting from the head's oldest sample, add
      the head's next newer samples one by one while they are older than `bt`,
      and stop at the first one that is not. */
  method CopyOlderHeadSamples(h: seq<Sample>, bt: int) returns (subs: seq<Sample>, k: nat)
    requires h != []
    ensures k == ScanDown(h, bt, |h| - 1) && subs == h[k..]
  {
    subs := [Oldest(h)];
    k := |h| - 1;
    while k > 0
      invariant 0 <= k <= |h| - 1
      invariant subs == h[k..]
      invariant ScanDown(h, bt, k) == ScanDown(h, bt, |h| - 1)
    {
      if h[k - 1].tstamp < bt {
        subs := [h[k - 1]] + subs;
        k := k - 1;
      } else {
        break;
      }
    }
  }

  /** The second loop of the merge: visit `bs` oldest first and add a sample
      only when it is strictly newer than the newest one held so far. */
  method AddNewerSamples(bs: seq<Sample>, start: seq<Sample>) returns (subs: seq<Sample>)
    requires start != []
    ensures subs == Ascent(bs, start[0].tstamp) + start
  {
    subs := start;
    ghost var target := Ascent(bs, start[0].tstamp) + start;
    var i := |bs|;
    assert bs[..i] == bs;
    while i > 0
      invariant 0 <= i <= |bs|
      invariant subs != []
      invariant Ascent(bs[..i], subs[0].tstamp) + subs == target
    {
      var sub := bs[i - 1];
      AscentStep(bs, i, subs);
      if sub.tstamp > subs[0].tstamp {
        subs := [sub] + subs;
      }
      i := i - 1;
    }
    assert bs[..i] == [];
  }

  /** One step of the second merge loop keeps what remains to be walked plus
      what is held equal to the final result. */
  lemma AscentStep(bs: seq<Sample>, i: nat, subs: seq<Sample>)
    requires 0 < i <= |bs| && subs != []
    ensures var sub := bs[i - 1];
      var next := if sub.tstamp > subs[0].tstamp then [sub] + subs else subs;
      Ascent(bs[..i - 1], next[0].tstamp) + next == Ascent(bs[..i], subs[0].tstamp) + subs
  {
    var sub := bs[i - 1];
    AscentUnfold(bs, i, subs[0].tstamp);
    if sub.tstamp > subs[0].tstamp {
      var rest := Ascent(bs[..i - 1], sub.tstamp);
      assert ([sub] + subs)[0] == sub;
      assert rest + [sub] + subs == rest + ([sub] + subs);
    }
  }

  lemma AscentUnfold(s: seq<Sample>, i: nat, t: int)
    requires 0 < i <= |s|
    ensures Ascent(s[..i], t) ==
      if s[i - 1].tstamp > t then Ascent(s[..i - 1], s[i - 1].tstamp) + [s[i - 1]]
      else Ascent(s[..i - 1], t)
  {
    assert s[..i][..i - 1] == s[..i - 1];
  }

  /** Concatenating two newest-first lists, all of the first newer than all of the second. */
  lemma NewestFirstAppend(a: seq<Sample>, c: seq<Sample>)
    requires NewestFirst(a) && NewestFirst(c)
    requires forall x :: x in a ==> forall y :: y in c ==> x.tstamp > y.tstamp
    ensures NewestFirst(a + c)
  {
    forall i, j | 0 <= i < j < |a + c| ensures (a + c)[i].tstamp > (a + c)[j].tstamp {
      if j >= |a| && i < |a| {
        assert (a + c)[i] in a && (a + c)[j] in c;
      }
    }
  }

  /** No duplicates: when the head's subbars are strictly ordered, so are the
      merged ones, whatever order the incoming subbars come in. */
  lemma MergedSubbarsOrdered(h: seq<Sample>, bs: seq<Sample>)
    requires h != [] && bs != []
    requires NewestFirst(h)
    ensures NewestFirst(MergedSubbars(h, bs))
  {
    var j := ScanDown(h, Oldest(bs).tstamp, |h| - 1);
    var a, c := Ascent(bs, h[j].tstamp), h[j..];
    assert MergedSubbars(h, bs) == a + c;
    AscentOrdered(bs, h[j].tstamp);
    AscentMembers(bs, h[j].tstamp);
    NewestFirstSuffix(h, j);
    NewestFirstAppend(a, c);
  }

  /** A suffix of an ordered list is ordered, and its first sample is its newest. */
  lemma NewestFirstSuffix(h: seq<Sample>, j: nat)
    requires NewestFirst(h) && j < |h|
    ensures NewestFirst(h[j..])
    ensures forall y :: y in h[j..] ==> y.tstamp <= h[j].tstamp
  {
    var c := h[j..];
    forall y | y in c ensures y.tstamp <= h[j].tstamp {
      var i :| 0 <= i < |c| && c[i] == y;
      assert c[i] == h[j + i];
    }
    forall i, k | 0 <= i < k < |c| ensures c[i].tstamp > c[k].tstamp {
      assert c[i] == h[j + i] && c[k] == h[j + k];
    }
  }

  /** Every merged sample comes from the incoming bar, or is the head's oldest
      sample, or is a head sample older than the incoming bar's oldest one. */
  lemma MergedSubbarsSources(h: seq<Sample>, bs: seq<Sample>)
    requires h != [] && bs != []
    ensures forall x :: x in MergedSubbars(h, bs) ==>
      x in bs || x == Oldest(h) || (x in h && x.tstamp < Oldest(bs).tstamp)
  {
    var bt := Oldest(bs).tstamp;
    var j := ScanDown(h, bt, |h| - 1);
    AscentMembers(bs, h[j].tstamp);
    forall x | x in h[j..] ensures x == Oldest(h) || (x in h && x.tstamp < bt) {
      var i :| 0 <= i < |h[j..]| && h[j..][i] == x;
      assert x == h[j + i];
    }
  }

  lemma {:induction false} NewerThanAll(s: seq<Sample>, t: int)
    requires forall x :: x in s ==> x.tstamp > t
    ensures NewerThan(s, t) == s
  {
    if s != [] {
      assert s == s[..|s| - 1] + [s[|s| - 1]];
      NewerThanAll(s[..|s| - 1], t);
    }
  }

  /** On an ordered list the running-newest walk of `add_subbar` is a plain filter. */
  lemma {:induction false} AscentOfOrdered(s: seq<Sample>, t: int)
    requires NewestFirst(s)
    ensures Ascent(s, t) == NewerThan(s, t)
  {
    if s != [] {
      var init, x := s[..|s| - 1], s[|s| - 1];
      OrderedInit(s);
      if x.tstamp > t {
        AscentOfOrdered(init, x.tstamp);
        NewerThanAll(init, x.tstamp);
        NewerThanAll(init, t);
      } else {
        AscentOfOrdered(init, t);
      }
    }
  }

  /** Dropping the oldest sample of an ordered list leaves it ordered, and every
      remaining sample is newer than the dropped one. */
  lemma OrderedInit(s: seq<Sample>)
    requires s != [] && NewestFirst(s)
    ensures NewestFirst(s[..|s| - 1])
    ensures forall y :: y in s[..|s| - 1] ==> y.tstamp > Oldest(s).tstamp
  {
    var init := s[..|s| - 1];
    forall i, j | 0 <= i < j < |init| ensures init[i].tstamp > init[j].tstamp {
      assert init[i] == s[i] && init[j] == s[j];
    }
    forall y | y in init ensures y.tstamp > Oldest(s).tstamp {
      var i :| 0 <= i < |init| && init[i] == y;
      assert s[i] == y;
    }
  }

  lemma {:induction false} OlderThanSuffix(s: seq<Sample>, t: int, j: nat)
    requires j <= |s|
    requires forall i :: 0 <= i < j ==> s[i].tstamp >= t
    requires forall i :: j <= i < |s| ==> s[i].tstamp < t
    ensures OlderThan(s, t) == s[j..]
  {
    if s != [] {
      var init := s[..|s| - 1];
      if j == |s| {
        OlderThanSuffix(init, t, j - 1);
      } else {
        OlderThanSuffix(init, t, j);
        assert s[j..] == init[j..] + [s[|s| - 1]];
      }
    }
  }

  /** The head started recording the bucket before the incoming bar did. Then
      the result is every incoming sample followed by the head's samples older
      than the incoming oldest one; the head's other samples are dropped, whether
      or not the incoming bar carries their timestamps. */
  lemma MergedSubbarsUnion(h: seq<Sample>, bs: seq<Sample>)
    requires h != [] && bs != []
    requires NewestFirst(h) && NewestFirst(bs)
    requires Oldest(h).tstamp < Oldest(bs).tstamp
    ensures MergedSubbars(h, bs) == bs + OlderThan(h, Oldest(bs).tstamp)
  {
    var bt := Oldest(bs).tstamp;
    var j := ScanDown(h, bt, |h| - 1);
    assert h[j].tstamp < bt by {
      if j < |h| - 1 { assert h[j].tstamp < bt; }
    }
    OlderThanIsSuffix(h, bt, j);
    AscentOfNewer(bs, h[j].tstamp);
  }

  lemma OlderThanIsSuffix(h: seq<Sample>, bt: int, j: nat)
    requires NewestFirst(h) && j < |h|
    requires forall i :: j <= i < |h| ==> h[i].tstamp < bt
    requires j > 0 ==> h[j - 1].tstamp >= bt
    ensures OlderThan(h, bt) == h[j..]
  {
    forall i | 0 <= i < j ensures h[i].tstamp >= bt {
      assert h[i].tstamp >= h[j - 1].tstamp;
    }
    OlderThanSuffix(h, bt, j);
  }

  lemma AscentOfNewer(bs: seq<Sample>, t: int)
    requires bs != [] && NewestFirst(bs) && Oldest(bs).tstamp > t
    ensures Ascent(bs, t) == bs
  {
    forall x | x in bs ensures x.tstamp > t {
      var i :| 0 <= i < |bs| && bs[i] == x;
      assert bs[i].tstamp >= bs[|bs| - 1].tstamp;
    }
    AscentOfOrdered(bs, t);
    NewerThanAll(bs, t);
  }

  /** The other case: the incoming bar holds samples older than the head's oldest
      one. The merge keeps the head's oldest sample as the bucket's first and drops
      every incoming sample that is not newer than it. */
  lemma MergedSubbarsLateHead(h: seq<Sample>, bs: seq<Sample>)
    requires h != [] && bs != []
    requires NewestFirst(h) && NewestFirst(bs)
    requires Oldest(h).tstamp > Oldest(bs).tstamp
    ensures MergedSubbars(h, bs) == NewerThan(bs, Oldest(h).tstamp) + [Oldest(h)]
  {
    var bt := Oldest(bs).tstamp;
    var j := ScanDown(h, bt, |h| - 1);
    if |h| > 1 {
      assert h[|h| - 2].tstamp > h[|h| - 1].tstamp;
    }
    assert j == |h| - 1;
    AscentOfOrdered(bs, h[j].tstamp);
  }

  /** The timestamps a list of samples covers. */
  function Stamps(s: seq<Sample>): set<int>
  {
    set x | x in s :: x.tstamp
  }

  /** When the head started the bucket first and the incoming bar carries the
      time of every head sample from its own oldest one on, no subbar time is
      lost: the merged times are exactly the times of both inputs. */
  lemma MergedSubbarsKeepsStamps(h: seq<Sample>, bs: seq<Sample>)
    requires h != [] && bs != []
    requires NewestFirst(h) && NewestFirst(bs)
    requires Oldest(h).tstamp < Oldest(bs).tstamp
    requires forall x :: x in h && x.tstamp >= Oldest(bs).tstamp ==> x.tstamp in Stamps(bs)
    ensures Stamps(MergedSubbars(h, bs)) == Stamps(h) + Stamps(bs)
  {
    var bt := Oldest(bs).tstamp;
    var m := MergedSubbars(h, bs);
    MergedSubbarsUnion(h, bs);
    OlderThanMembers(h, bt);
    assert m == bs + OlderThan(h, bt);
    forall t | t in Stamps(h) ensures t in Stamps(m) {
      var x :| x in h && x.tstamp == t;
      if x.tstamp < bt {
        assert x in OlderThan(h, bt);
        assert x in m;
      } else {
        var y :| y in bs && y.tstamp == t;
        assert y in m;
      }
    }
    forall t | t in Stamps(bs) ensures t in Stamps(m) {
      var y :| y in bs && y.tstamp == t;
      assert y in m;
    }
    forall t | t in Stamps(m) ensures t in Stamps(h) + Stamps(bs) {
      var x :| x in m && x.tstamp == t;
      if x !in bs {
        assert x in OlderThan(h, bt);
      }
    }
  }

  /** The head's samples that the incoming bar lacks are lost even when the head
      started the bucket first: head times 5, 4, 3, 2, 1 merged with incoming
      times 3, 2 give 3, 2, 1. */
  lemma MergeDropsNewerHeadSamples()
    ensures MergedSubbars([Sample(5, 5.0), Sample(4, 4.0), Sample(3, 3.0), Sample(2, 2.0), Sample(1, 1.0)],
                          [Sample(3, 3.5), Sample(2, 2.5)])
         == [Sample(3, 3.5), Sample(2, 2.5), Sample(1, 1.0)]
  {
    var h := [Sample(5, 5.0), Sample(4, 4.0), Sample(3, 3.0), Sample(2, 2.0), Sample(1, 1.0)];
    var bs := [Sample(3, 3.5), Sample(2, 2.5)];
    assert ScanDown(h, 2, 4) == 4;
    assert bs[..1] == [Sample(3, 3.5)] && [Sample(3, 3.5)][..0] == [];
    assert Ascent(bs, 1) == [Sample(3, 3.5), Sample(2, 2.5)];
  }

  /** When the incoming bar holds a sample older than the head's oldest one,
      that sample is lost: head times 5, 3 merged with incoming times 4, 1
      give 4, 3. */
  lemma MergeDropsEarlierIncomingSamples()
    ensures MergedSubbars([Sample(5, 5.0), Sample(3, 3.0)], [Sample(4, 4.0), Sample(1, 1.0)])
         == [Sample(4, 4.0), Sample(3, 3.0)]
  {
    var h := [Sample(5, 5.0), Sample(3, 3.0)];
    var bs := [Sample(4, 4.0), Sample(1, 1.0)];
    assert ScanDown(h, 1, 1) == 1;
    assert bs[..1] == [Sample(4, 4.0)] && [Sample(4, 4.0)][..0] == [];
    assert Ascent(bs, 3) == [Sample(4, 4.0)];
  }

  /** In that case the rebuilt bar opens at the head's later sample (3.0), not
      at the bucket's earliest sample (1.0) that the incoming bar carried. */
  lemma MergeOpensLate()
    ensures Refine(Bar(0, 3.0, [Sample(5, 5.0), Sample(3, 3.0)], false),
                   Bar(0, 1.0, [Sample(4, 4.0), Sample(1, 1.0)], false))
         == Bar(0, 3.0, [Sample(4, 4.0), Sample(3, 3.0)], true)
  {
    MergeDropsEarlierIncomingSamples();
  }

  lemma ScanDownUnique(h: seq<Sample>, bt: int, k: nat, j: nat)
    requires j <= k < |h|
    requires forall i :: j <= i < k ==> h[i].tstamp < bt
    requires j > 0 ==> h[j - 1].tstamp >= bt
    ensures ScanDown(h, bt, k) == j
  {
    var r := ScanDown(h, bt, k);
  }

  /** Merging the same incoming bar into an already merged head changes nothing. */
  lemma MergedSubbarsStable(h: seq<Sample>, bs: seq<Sample>)
    requires h != [] && bs != []
    requires Oldest(h).tstamp != Oldest(bs).tstamp
    ensures MergedSubbars(MergedSubbars(h, bs), bs) == MergedSubbars(h, bs)
  {
    var j := ScanDown(h, Oldest(bs).tstamp, |h| - 1);
    var a := Ascent(bs, h[j].tstamp);
    var m := MergedSubbars(h, bs);
    assert m == a + h[j..];
    RescanMerged(h, bs);
    MergedSubbarsAt(m, bs, |a|);
    assert m[|a|..] == h[j..];
  }

  /** Unfolds the merge when the scan of `m` is known to stop at index `k`. */
  lemma MergedSubbarsAt(m: seq<Sample>, bs: seq<Sample>, k: nat)
    requires m != [] && bs != [] && k < |m|
    requires ScanDown(m, Oldest(bs).tstamp, |m| - 1) == k
    ensures MergedSubbars(m, bs) == Ascent(bs, m[k].tstamp) + m[k..]
  {
  }

  /** Scanning the merged subbars again stops where the head's kept suffix starts. */
  lemma RescanMerged(h: seq<Sample>, bs: seq<Sample>)
    requires h != [] && bs != []
    requires Oldest(h).tstamp != Oldest(bs).tstamp
    ensures var j := ScanDown(h, Oldest(bs).tstamp, |h| - 1);
      ScanDown(MergedSubbars(h, bs), Oldest(bs).tstamp, |MergedSubbars(h, bs)| - 1) == |Ascent(bs, h[j].tstamp)|
  {
    var bt := Oldest(bs).tstamp;
    var j := ScanDown(h, bt, |h| - 1);
    var a := Ascent(bs, h[j].tstamp);
    assert MergedSubbars(h, bs) == a + h[j..];
    assert h[j].tstamp != bt by {
      if j < |h| - 1 { assert h[j].tstamp < bt; }
    }
    assert a != [] ==> Oldest(a).tstamp >= bt by {
      AscentMembers(bs, h[j].tstamp);
      if a != [] && h[j].tstamp > bt {
        assert Oldest(a) in a;
      }
    }
    RescanStopsAtHead(a, h[j..], bt);
  }

  /** Scanning merged subbars `a + c` again stops exactly where `c` starts,
      when `c`'s samples before its oldest are older than `bt` and `a`'s oldest
      sample is not. */
  lemma RescanStopsAtHead(a: seq<Sample>, c: seq<Sample>, bt: int)
    requires c != []
    requires forall i :: 0 <= i < |c| - 1 ==> c[i].tstamp < bt
    requires a != [] ==> Oldest(a).tstamp >= bt
    ensures ScanDown(a + c, bt, |a + c| - 1) == |a|
  {
    var m := a + c;
    if a != [] {
      assert m[|a| - 1] == Oldest(a);
    }
    forall i | |a| <= i < |m| - 1 ensures m[i].tstamp < bt {
      assert m[i] == c[i - |a|];
    }
    ScanDownUnique(m, bt, |m| - 1, |a|);
  }

  /** Same-bucket refinement: an incoming bar whose oldest subbar matches the
      head's replaces the head outright; otherwise the rebuilt head keeps the
      bucket's timestamp and its opening sample, is marked changed, and its
      subbars stay strictly ordered. */
  lemma RefineSameBucket(head: Bar, b: Bar)
    requires head.subbars != [] && b.subbars != []
    ensures Oldest(b.subbars).tstamp == Oldest(head.subbars).tstamp ==> Refine(head, b) == b
    ensures Oldest(b.subbars).tstamp != Oldest(head.subbars).tstamp ==>
      && Refine(head, b).tstamp == b.tstamp
      && Refine(head, b).open == Oldest(head.subbars).open
      && Oldest(Refine(head, b).subbars) == Oldest(head.subbars)
      && Refine(head, b).didChange
      && (NewestFirst(head.subbars) ==> NewestFirst(Refine(head, b).subbars))
  {
    if Oldest(b.subbars).tstamp != Oldest(head.subbars).tstamp {
      if NewestFirst(head.subbars) {
        MergedSubbarsOrdered(head.subbars, b.subbars);
      }
    }
  }

  /** Refining the head twice with one incoming bar is refining it once. */
  lemma RefineIdempotent(head: Bar, b: Bar)
    requires head.subbars != [] && b.subbars != []
    ensures Refine(Refine(head, b), b) == Refine(head, b)
  {
    var hs, bs := head.subbars, b.subbars;
    if Oldest(bs).tstamp != Oldest(hs).tstamp {
      var m := MergedSubbars(hs, bs);
      MergedSubbarsStable(hs, bs);
      var r := Bar(b.tstamp, Oldest(hs).open, m, true);
      assert Refine(head, b) == r;
      assert Refine(r, b) == Bar(b.tstamp, Oldest(m).open, MergedSubbars(m, bs), true);
    }
  }

  // ---------------------------------------------------------------------------
  // Folding an incoming batch into the stored bars
  // ---------------------------------------------------------------------------

  /** The head bucket is there and has a subbar to compare against. */
  predicate HeadReady(bars: seq<Bar>)
  {
    bars != [] && bars[0].subbars != []
  }

  predicate AllHaveSubbars(batch: seq<Bar>)
  {
    forall i :: 0 <= i < |batch| ==> batch[i].subbars != []
  }

  /** One incoming bar against the head: stale bars are skipped, a bar of the
      head's bucket refines the head, a newer bar is prepended. */
  function Step(bars: seq<Bar>, b: Bar): (r: seq<Bar>)
    requires HeadReady(bars) && b.subbars != []
    ensures HeadReady(r)
  {
    if b.tstamp < bars[0].tstamp then bars
    else if b.tstamp == bars[0].tstamp then bars[0 := Refine(bars[0], b)]
    else [b] + bars
  }

  /** The incremental merge: a newest-first batch walked oldest first. */
  function MergeBatch(bars: seq<Bar>, batch: seq<Bar>): (r: seq<Bar>)
    requires HeadReady(bars) && AllHaveSubbars(batch)
    ensures HeadReady(r)
    decreases |batch|
  {
    if batch == [] then bars
    else MergeBatch(Step(bars, batch[|batch| - 1]), batch[..|batch| - 1])
  }

  /** The bars after `update_bars`: a full fetch while fewer than ten bars are
      held, the incremental merge otherwise. */
  function UpdatedBars(bars: seq<Bar>, full: seq<Bar>, recent: seq<Bar>): (r: seq<Bar>)
    requires |bars| >= 10 ==> HeadReady(bars) && AllHaveSubbars(recent)
    ensures |bars| >= 10 ==> HeadReady(r) && |r| >= |bars| && r[|r| - |bars| + 1..] == bars[1..]
  {
    if |bars| < 10 then full
    else
      MergeBatchKeepsTail(bars, recent);
      MergeBatch(bars, recent)
  }

  /** The bars once the strategy has seen them: every change flag cleared,
      nothing else touched. */
  function Settled(bars: seq<Bar>): (r: seq<Bar>)
    ensures |r| == |bars|
    ensures forall i :: 0 <= i < |r| ==> !r[i].didChange && r[i].(didChange := bars[i].didChange) == bars[i]
  {
    seq(|bars|, i requires 0 <= i < |bars| => bars[i].(didChange := false))
  }

  lemma StepOrdered(bars: seq<Bar>, b: Bar)
    requires HeadReady(bars) && b.subbars != [] && Descending(bars)
    ensures Descending(Step(bars, b))
  {
    if b.tstamp > bars[0].tstamp {
      var r := [b] + bars;
      forall i, j | 0 <= i < j < |r| ensures r[i].tstamp > r[j].tstamp {
        if i == 0 && j > 1 { assert bars[0].tstamp > bars[j - 1].tstamp; }
      }
    }
  }

  /** Bucket monotonicity: the incremental merge keeps the bars strictly
      decreasing in start time from index 0. */
  lemma {:induction false} MergeBatchOrdered(bars: seq<Bar>, batch: seq<Bar>)
    requires HeadReady(bars) && AllHaveSubbars(batch) && Descending(bars)
    ensures Descending(MergeBatch(bars, batch))
    decreases |batch|
  {
    if batch != [] {
      var b := batch[|batch| - 1];
      StepOrdered(bars, b);
      MergeBatchOrdered(Step(bars, b), batch[..|batch| - 1]);
    }
  }

  /** `r` is `bars` with bars newer than the old head prepended and the old
      head's slot holding a bar of the same bucket; the older bars are untouched. */
  predicate Extends(r: seq<Bar>, bars: seq<Bar>)
    requires bars != []
  {
    && |r| >= |bars|
    && r[|r| - |bars| + 1..] == bars[1..]
    && r[|r| - |bars|].tstamp == bars[0].tstamp
    && forall i :: 0 <= i < |r| - |bars| ==> r[i].tstamp > bars[0].tstamp
  }

  lemma ExtendsTransitive(r: seq<Bar>, s: seq<Bar>, bars: seq<Bar>)
    requires bars != [] && s != []
    requires Extends(r, s) && Extends(s, bars)
    ensures Extends(r, bars)
  {
    var d1, d0 := |r| - |s|, |s| - |bars|;
    if d0 > 0 {
      assert r[d1 + 1..][d0..] == s[1..][d0..];
      assert r[d1 + d0 + 1..] == s[d0 + 1..];
      assert r[d1 + d0] == s[d0];
      forall i | 0 <= i < d1 + d0 ensures r[i].tstamp > bars[0].tstamp {
        if i == d1 {
          assert r[i].tstamp == s[0].tstamp;
        } else if i > d1 {
          assert r[i] == r[d1 + 1..][i - d1 - 1] == s[1..][i - d1 - 1];
        }
      }
    } else {
      assert s[1..] == bars[1..];
    }
  }

  lemma StepExtends(bars: seq<Bar>, b: Bar)
    requires HeadReady(bars) && b.subbars != []
    ensures Extends(Step(bars, b), bars)
  {
    var s := Step(bars, b);
    if b.tstamp > bars[0].tstamp {
      assert s[2..] == bars[1..];
    } else if b.tstamp == bars[0].tstamp {
      assert s[1..] == bars[1..];
    }
  }

  /** Nothing else changes: the merge only prepends bars newer than the old
      head and rewrites the old head's slot with a bar of the same bucket; every
      older bar stays as it was, in the same order, and no bar is lost. */
  lemma {:induction false} MergeBatchKeepsTail(bars: seq<Bar>, batch: seq<Bar>)
    requires HeadReady(bars) && AllHaveSubbars(batch)
    ensures |MergeBatch(bars, batch)| >= |bars|
    ensures MergeBatch(bars, batch)[|MergeBatch(bars, batch)| - |bars| + 1..] == bars[1..]
    ensures MergeBatch(bars, batch)[|MergeBatch(bars, batch)| - |bars|].tstamp == bars[0].tstamp
    ensures forall i :: 0 <= i < |MergeBatch(bars, batch)| - |bars| ==>
      MergeBatch(bars, batch)[i].tstamp > bars[0].tstamp
    decreases |batch|
  {
    if batch != [] {
      var s := Step(bars, batch[|batch| - 1]);
      StepExtends(bars, batch[|batch| - 1]);
      MergeBatchKeepsTail(s, batch[..|batch| - 1]);
      ExtendsTransitive(MergeBatch(bars, batch), s, bars);
    }
  }

  /** After the merge the head is at least as new as the old head and as every
      incoming bar: the newest bucket ends up at the front. */
  lemma {:induction false} MergeBatchHeadNewest(bars: seq<Bar>, batch: seq<Bar>)
    requires HeadReady(bars) && AllHaveSubbars(batch)
    ensures MergeBatch(bars, batch)[0].tstamp >= bars[0].tstamp
    ensures forall i :: 0 <= i < |batch| ==> batch[i].tstamp <= MergeBatch(bars, batch)[0].tstamp
    decreases |batch|
  {
    if batch != [] {
      var b := batch[|batch| - 1];
      MergeBatchHeadNewest(Step(bars, b), batch[..|batch| - 1]);
      forall i | 0 <= i < |batch| - 1 ensures batch[i] == batch[..|batch| - 1][i] { }
    }
  }

  /** Walking `p + q` oldest first is walking `q`, then `p`. */
  lemma {:induction false} MergeBatchSplit(bars: seq<Bar>, p: seq<Bar>, q: seq<Bar>)
    requires HeadReady(bars) && AllHaveSubbars(p) && AllHaveSubbars(q)
    ensures AllHaveSubbars(p + q)
    ensures MergeBatch(bars, p + q) == MergeBatch(MergeBatch(bars, q), p)
    decreases |q|
  {
    assert forall i :: 0 <= i < |p + q| ==> (p + q)[i] == if i < |p| then p[i] else q[i - |p|];
    if q != [] {
      var init := q[..|q| - 1];
      assert (p + q)[..|p + q| - 1] == p + init;
      assert (p + q)[|p + q| - 1] == q[|q| - 1];
      MergeBatchSplit(Step(bars, q[|q| - 1]), p, init);
    } else {
      assert p + q == p;
    }
  }

  /** A batch whose every bar is older than the head changes nothing. */
  lemma {:induction false} MergeBatchSkipsOlder(bars: seq<Bar>, batch: seq<Bar>)
    requires HeadReady(bars) && AllHaveSubbars(batch)
    requires forall i :: 0 <= i < |batch| ==> batch[i].tstamp < bars[0].tstamp
    ensures MergeBatch(bars, batch) == bars
    decreases |batch|
  {
    if batch != [] {
      MergeBatchSkipsOlder(bars, batch[..|batch| - 1]);
    }
  }

  lemma StepIdempotent(bars: seq<Bar>, b: Bar)
    requires HeadReady(bars) && b.subbars != []
    ensures Step(Step(bars, b), b) == Step(bars, b)
  {
    var s := Step(bars, b);
    if b.tstamp == bars[0].tstamp {
      RefineIdempotent(bars[0], b);
      assert s == bars[0 := Refine(bars[0], b)];
      assert Step(s, b) == s[0 := Refine(s[0], b)];
    } else if b.tstamp > bars[0].tstamp {
      assert s == [b] + bars;
      assert Refine(b, b) == b;
      assert Step(s, b) == s[0 := Refine(b, b)];
    }
  }

  /** Merge idempotence: applying the same incremental fetch twice gives the
      bars that applying it once gives, provided the batch's first bar is
      strictly its newest, as for a newest-first fetch. */
  lemma MergeBatchIdempotent(bars: seq<Bar>, batch: seq<Bar>)
    requires HeadReady(bars) && AllHaveSubbars(batch)
    requires forall i :: 0 < i < |batch| ==> batch[i].tstamp < batch[0].tstamp
    ensures MergeBatch(MergeBatch(bars, batch), batch) == MergeBatch(bars, batch)
  {
    if batch != [] {
      var b, rest := batch[0], batch[1..];
      assert batch == [b] + rest;
      assert AllHaveSubbars(rest) by {
        forall i | 0 <= i < |rest| ensures rest[i].subbars != [] { assert rest[i] == batch[i + 1]; }
      }
      MergeBatchSplit(bars, [b], rest);
      var r1 := MergeBatch(bars, rest);
      var r := MergeBatch(bars, batch);
      assert MergeBatch(r1, [b]) == Step(r1, b);
      assert r == Step(r1, b);
      MergeBatchSplit(r, [b], rest);
      assert r[0].tstamp >= b.tstamp;
      MergeBatchSkipsOlder(r, rest);
      assert MergeBatch(r, [b]) == Step(r, b);
      StepIdempotent(r1, b);
    }
  }
}
