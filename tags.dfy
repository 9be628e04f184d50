/** The tag statistics of the categories page: how many records carry each topic,
    most used first. `tag_stats`, an insertion-ordered Python dictionary, is a
    sequence of (tag, count) pairs here, so that its order, which decides the order
    of equal counts after the stable sort, is part of the model. */
module Tags {
  import opened Seqs
  import opened Catalog

  type TagCount = (string, nat)

  function Count(p: TagCount): int
  {
    p.1
  }

  /** Every topic of every record, record after record (`package.get("topics", [])`). */
  function AllTopics(records: seq<Record>): seq<string>
  {
    if records == [] then [] else AllTopics(records[..|records| - 1]) + records[|records| - 1].topics
  }

  function Keys(stats: seq<TagCount>): (r: seq<string>)
    ensures |r| == |stats|
    ensures forall i :: 0 <= i < |stats| ==> r[i] == stats[i].0
  {
    seq(|stats|, i requires 0 <= i < |stats| => stats[i].0)
  }

  /** One step of the loop: `tag_stats[topic] += 1` for a known topic, and
      `tag_stats[topic] = 1`, which appends, for a new one. */
  function Bump(stats: seq<TagCount>, topic: string): seq<TagCount>
  {
    var i := IndexOf(Keys(stats), topic);
    if i < |stats| then stats[i := (topic, stats[i].1 + 1)] else stats + [(topic, 1)]
  }

  /** The dictionary after counting `topics` in order. */
  function Stats(topics: seq<string>): seq<TagCount>
  {
    if topics == [] then [] else Bump(Stats(topics[..|topics| - 1]), topics[|topics| - 1])
  }

  predicate DistinctKeys(stats: seq<TagCount>)
  {
    forall i, j :: 0 <= i < j < |stats| ==> stats[i].0 != stats[j].0
  }

  function Sum(stats: seq<TagCount>): int
  {
    if stats == [] then 0 else stats[0].1 + Sum(stats[1..])
  }

  /** What the dictionary holds: each topic once, with the number of its occurrences,
      so at least one. */
  lemma {:induction false} StatsCounts(topics: seq<string>)
    ensures DistinctKeys(Stats(topics))
    ensures forall t :: t in topics <==> t in Keys(Stats(topics))
    ensures forall i :: 0 <= i < |Stats(topics)| ==>
              Stats(topics)[i].1 == multiset(topics)[Stats(topics)[i].0] >= 1
  {
    if topics != [] {
      var n := |topics| - 1;
      var prefix, t := topics[..n], topics[n];
      assert topics == prefix + [t];
      StatsCounts(prefix);
      var before := Stats(prefix);
      var after := Stats(topics);
      var k := IndexOf(Keys(before), t);
      if k < |before| {
        assert after == before[k := (t, before[k].1 + 1)];
        assert Keys(after) == Keys(before);
        forall i | 0 <= i < |after| ensures after[i].1 == multiset(topics)[after[i].0] >= 1 {
          if i != k { assert before[i].0 != t; }
        }
      } else {
        assert after == before + [(t, 1)];
        assert t !in prefix;
        forall i | 0 <= i < |after| ensures after[i].1 == multiset(topics)[after[i].0] >= 1 {
          if i < |before| { assert after[i] == before[i]; }
        }
        assert forall x :: x in Keys(after) <==> x in Keys(before) || x == t by {
          assert Keys(after) == Keys(before) + [t];
        }
      }
    }
  }

  /** The keys of `stats` occur in `topics`, in the order of their first occurrence. */
  predicate InEncounterOrder(stats: seq<TagCount>, topics: seq<string>)
  {
    (forall i :: 0 <= i < |stats| ==> stats[i].0 in topics) &&
    forall i, j :: 0 <= i < j < |stats| ==> IndexOf(topics, stats[i].0) < IndexOf(topics, stats[j].0)
  }

  lemma {:induction false} EncounterOrderAppend(stats: seq<TagCount>, topics: seq<string>, t: string)
    requires InEncounterOrder(stats, topics) && t !in topics
    ensures InEncounterOrder(stats + [(t, 1)], topics + [t])
  {
    var after := stats + [(t, 1)];
    IndexOfAppend(topics, t, t);
    forall i | 0 <= i < |stats| ensures IndexOf(topics + [t], stats[i].0) == IndexOf(topics, stats[i].0) < |topics| {
      IndexOfAppend(topics, t, stats[i].0);
    }
    forall i, j | 0 <= i < j < |after|
      ensures IndexOf(topics + [t], after[i].0) < IndexOf(topics + [t], after[j].0)
    {
      if j < |stats| {
        assert after[i] == stats[i] && after[j] == stats[j];
      }
    }
  }

  lemma {:induction false} EncounterOrderIncrement(stats: seq<TagCount>, topics: seq<string>, k: nat, t: string, c: nat)
    requires InEncounterOrder(stats, topics) && k < |stats| && stats[k].0 == t
    ensures InEncounterOrder(stats[k := (t, c)], topics + [t])
  {
    var after := stats[k := (t, c)];
    forall i | 0 <= i < |stats| ensures IndexOf(topics + [t], stats[i].0) == IndexOf(topics, stats[i].0) {
      IndexOfAppend(topics, t, stats[i].0);
    }
    forall i, j | 0 <= i < j < |after|
      ensures IndexOf(topics + [t], after[i].0) < IndexOf(topics + [t], after[j].0)
    {
      assert after[i].0 == stats[i].0 && after[j].0 == stats[j].0;
    }
  }

  /** The dictionary keeps the topics in the order of their first occurrence. */
  lemma {:induction false} StatsFirstEncounterOrder(topics: seq<string>)
    ensures InEncounterOrder(Stats(topics), topics)
  {
    if topics != [] {
      var n := |topics| - 1;
      var prefix, t := topics[..n], topics[n];
      assert topics == prefix + [t];
      StatsFirstEncounterOrder(prefix);
      StatsCounts(prefix);
      var before := Stats(prefix);
      assert Stats(topics) == Bump(before, t);
      var k := IndexOf(Keys(before), t);
      if k == |before| {
        EncounterOrderAppend(before, prefix, t);
      } else {
        EncounterOrderIncrement(before, prefix, k, t, before[k].1 + 1);
      }
    }
  }

  lemma {:induction false} SumAppend(stats: seq<TagCount>, p: TagCount)
    ensures Sum(stats + [p]) == Sum(stats) + p.1
  {
    if stats != [] {
      assert (stats + [p])[1..] == stats[1..] + [p];
      SumAppend(stats[1..], p);
    }
  }

  lemma {:induction false} SumIncrement(stats: seq<TagCount>, k: nat, t: string)
    requires k < |stats|
    ensures Sum(stats[k := (t, stats[k].1 + 1)]) == Sum(stats) + 1
  {
    if k > 0 {
      assert stats[k := (t, stats[k].1 + 1)][1..] == stats[1..][k - 1 := (t, stats[k].1 + 1)];
      SumIncrement(stats[1..], k - 1, t);
    }
  }

  /** The counts add up to the number of topic occurrences. */
  lemma {:induction false} StatsSum(topics: seq<string>)
    ensures Sum(Stats(topics)) == |topics|
  {
    if topics != [] {
      var n := |topics| - 1;
      StatsSum(topics[..n]);
      var before := Stats(topics[..n]);
      var k := IndexOf(Keys(before), topics[n]);
      if k < |before| {
        SumIncrement(before, k, topics[n]);
      } else {
        SumAppend(before, (topics[n], 1));
      }
    }
  }

  lemma StatsSnoc(seen: seq<string>, topic: string)
    ensures Stats(seen + [topic]) == Bump(Stats(seen), topic)
  {
    assert (seen + [topic])[..|seen|] == seen;
  }

  lemma AllTopicsSnoc(records: seq<Record>, p: nat)
    requires p < |records|
    ensures AllTopics(records[..p + 1]) == AllTopics(records[..p]) + records[p].topics
  {
    assert records[..p + 1][..p] == records[..p];
  }

  /** The body of the inner loop of `categories` for `topics[j]`: `tag_stats[topic] += 1`
      when the topic is a key already, `tag_stats[topic] = 1` otherwise. */
  method Tally(stats: seq<TagCount>, ghost seen: seq<string>, topics: seq<string>, j: nat) returns (stats': seq<TagCount>)
    requires j < |topics| && stats == Stats(seen + topics[..j])
    ensures stats' == Stats(seen + topics[..j + 1])
  {
    var topic := topics[j];
    assert seen + topics[..j + 1] == (seen + topics[..j]) + [topic];
    StatsSnoc(seen + topics[..j], topic);
    var i := IndexOf(Keys(stats), topic);
    if i < |stats| {
      stats' := stats[i := (topic, stats[i].1 + 1)];
    } else {
      stats' := stats + [(topic, 1)];
    }
  }

  /** The inner loop of `categories`, over one package's topics. */
  method CountTopics(stats0: seq<TagCount>, ghost seen: seq<string>, topics: seq<string>) returns (stats: seq<TagCount>)
    requires stats0 == Stats(seen)
    ensures stats == Stats(seen + topics)
  {
    stats := stats0;
    var j := 0;
    assert seen + topics[..j] == seen;
    while j < |topics|
      invariant 0 <= j <= |topics|
      invariant stats == Stats(seen + topics[..j])
    {
      stats := Tally(stats, seen, topics, j);
      j := j + 1;
    }
    assert topics[..j] == topics;
  }

  /** The loop of `categories`, over an insertion-ordered dictionary. */
  method CountTags(records: seq<Record>) returns (stats: seq<TagCount>)
    ensures stats == Stats(AllTopics(records))
  {
    stats := [];
    var p := 0;
    while p < |records|
      invariant 0 <= p <= |records|
      invariant stats == Stats(AllTopics(records[..p]))
    {
      stats := CountTopics(stats, AllTopics(records[..p]), records[p].topics);
      AllTopicsSnoc(records, p);
      p := p + 1;
    }
    assert records[..p] == records;
  }

  // ---------------------------------------------------------------- after the sort

  lemma {:induction false} SumInsert(x: TagCount, s: seq<TagCount>)
    ensures Sum(InsertDesc(x, s, Count)) == x.1 + Sum(s)
  {
    if s != [] && Count(s[0]) > Count(x) {
      assert InsertDesc(x, s, Count)[1..] == InsertDesc(x, s[1..], Count);
      SumInsert(x, s[1..]);
    }
  }

  lemma {:induction false} SumSorted(s: seq<TagCount>)
    ensures Sum(SortDesc(s, Count)) == Sum(s)
  {
    if s != [] {
      SumSorted(s[1..]);
      SumInsert(s[0], SortDesc(s[1..], Count));
    }
  }

  lemma {:induction false} InsertDistinct(x: TagCount, s: seq<TagCount>)
    requires DistinctKeys(s) && x.0 !in Keys(s)
    ensures DistinctKeys(InsertDesc(x, s, Count))
  {
    var r := InsertDesc(x, s, Count);
    if s == [] || Count(s[0]) <= Count(x) {
      forall i, j | 0 <= i < j < |r| ensures r[i].0 != r[j].0 {
        assert r[j] == s[j - 1];
        assert Keys(s)[j - 1] == s[j - 1].0;
        if i > 0 { assert r[i] == s[i - 1]; }
      }
    } else {
      var t := InsertDesc(x, s[1..], Count);
      assert Keys(s[1..]) == Keys(s)[1..];
      InsertDistinct(x, s[1..]);
      assert r == [s[0]] + t;
      forall i, j | 0 <= i < j < |r| ensures r[i].0 != r[j].0 {
        if i == 0 {
          assert r[j] == t[j - 1] && r[j] in multiset(t);
          if r[j] == x {
            assert Keys(s)[0] == s[0].0;
          } else {
            assert r[j] in multiset(s[1..]);
            var m :| 0 <= m < |s[1..]| && s[1..][m] == r[j];
            assert s[1..][m] == s[m + 1];
          }
        } else {
          assert r[i] == t[i - 1] && r[j] == t[j - 1];
        }
      }
    }
  }

  /** Sorting a dictionary's items keeps its keys distinct. */
  lemma {:induction false} SortedDistinct(s: seq<TagCount>)
    requires DistinctKeys(s)
    ensures DistinctKeys(SortDesc(s, Count))
  {
    if s != [] {
      var rest := SortDesc(s[1..], Count);
      assert DistinctKeys(s[1..]) by {
        forall i, j | 0 <= i < j < |s[1..]| ensures s[1..][i].0 != s[1..][j].0 {
          assert s[1..][i] == s[i + 1] && s[1..][j] == s[j + 1];
        }
      }
      SortedDistinct(s[1..]);
      assert s[0].0 !in Keys(rest) by {
        forall m | 0 <= m < |rest| ensures Keys(rest)[m] != s[0].0 {
          assert rest[m] in multiset(s[1..]);
          var k :| 0 <= k < |s[1..]| && s[1..][k] == rest[m];
          assert s[k + 1] == rest[m];
        }
      }
      InsertDistinct(s[0], rest);
    }
  }

  /** `sorted(tag_stats.items(), key=lambda x: x[1], reverse=True)` over the whole catalog. */
  function SortedTags(records: seq<Record>): seq<TagCount>
  {
    SortDesc(Stats(AllTopics(records)), Count)
  }

  lemma {:induction false} SortedSameKeys(st: seq<TagCount>)
    ensures forall t :: t in Keys(st) <==> t in Keys(SortDesc(st, Count))
  {
    var tags := SortDesc(st, Count);
    forall t | t in Keys(st) ensures t in Keys(tags) {
      var m :| 0 <= m < |st| && Keys(st)[m] == t;
      assert st[m] in multiset(tags);
      var k :| 0 <= k < |tags| && tags[k] == st[m];
      assert Keys(tags)[k] == t;
    }
    forall t | t in Keys(tags) ensures t in Keys(st) {
      var k :| 0 <= k < |tags| && Keys(tags)[k] == t;
      assert tags[k] in multiset(st);
      var m :| 0 <= m < |st| && st[m] == tags[k];
      assert Keys(st)[m] == t;
    }
  }

  lemma {:induction false} SortedCounts(all: seq<string>)
    ensures var tags := SortDesc(Stats(all), Count);
            forall i :: 0 <= i < |tags| ==> tags[i].1 == multiset(all)[tags[i].0] >= 1
  {
    var st := Stats(all);
    var tags := SortDesc(st, Count);
    StatsCounts(all);
    forall i | 0 <= i < |tags| ensures tags[i].1 == multiset(all)[tags[i].0] >= 1 {
      assert tags[i] in multiset(st);
      var m :| 0 <= m < |st| && st[m] == tags[i];
    }
  }

  /** The categories page lists every topic of the catalog exactly once, each with the
      number of its occurrences (so at least one), most used first, and the counts add
      up to the number of topic occurrences. */
  lemma {:induction false} SortedTagsContract(records: seq<Record>)
    ensures var tags := SortedTags(records);
            var all := AllTopics(records);
            DistinctKeys(tags) &&
            NonIncreasing(tags, Count) &&
            (forall t :: t in all <==> t in Keys(tags)) &&
            (forall i :: 0 <= i < |tags| ==> tags[i].1 == multiset(all)[tags[i].0] >= 1) &&
            Sum(tags) == |all|
  {
    var all := AllTopics(records);
    var st := Stats(all);
    StatsCounts(all);
    StatsSum(all);
    SumSorted(st);
    SortedDistinct(st);
    SortedSameKeys(st);
    SortedCounts(all);
  }

  /** Ties keep the order of first occurrence: `sorted` is stable and the dictionary
      holds its keys in insertion order. */
  lemma {:induction false} SortedTagsTieOrder(records: seq<Record>, i: nat, j: nat)
    requires i < j < |SortedTags(records)|
    requires SortedTags(records)[i].1 == SortedTags(records)[j].1
    ensures IndexOf(AllTopics(records), SortedTags(records)[i].0) <
            IndexOf(AllTopics(records), SortedTags(records)[j].0)
  {
    var all := AllTopics(records);
    var st := Stats(all);
    var tags := SortedTags(records);
    var c := Count(tags[i]);
    var i', j' := WithKeyPositions(tags, Count, i, j);
    SortDescStable(st, Count, c);
    StatsFirstEncounterOrder(all);
    WithKeyKeepsOrder(st, Count, c, (a: TagCount, b: TagCount) => IndexOf(all, a.0) < IndexOf(all, b.0));
  }
}
