/**
 * `generateStatistics`: four frequency tables over all events, keyed by the
 * year, the city, the month and the venue ("livehouse") of each event.
 */
module Statistics {
  import opened Wrappers
  import opened Events
  import JsString
  import Seqs

  /** A frequency table. The key is `None` where the script's key is `undefined`. */
  type Bucket = Option<string>
  type Tally = map<Bucket, nat>

  /** The four tables. */
  datatype Field = Year | City | Month | Livehouse

  /** The key an event is counted under in the table for `f`. */
  function Key(f: Field, e: Event): (k: Bucket) {
    match f
    case Year => Some(e.year)
    case City => JsString.At(JsString.Split(e.location, ' '), 0)
    case Month => JsString.At(JsString.Split(e.date, '-'), 1)
    case Livehouse => JsString.At(JsString.Split(e.location, ' '), 1)
  }

  /** The keys of all events for the table `f`, one per event. */
  function Keys(events: seq<Event>, f: Field): (ks: seq<Bucket>) {
    seq(|events|, i requires 0 <= i < |events| => Key(f, events[i]))
  }

  /**
   * The reference tally: each key that occurs is mapped to the number of
   * positions of `keys` that hold it, and no other key is present.
   */
  function Histogram(keys: seq<Bucket>): (m: Tally)
    ensures forall k :: k in m <==> k in multiset(keys)
    ensures forall k :: k in m ==> m[k] == multiset(keys)[k] >= 1
  {
    map k | k in multiset(keys) :: multiset(keys)[k]
  }

  /**
   * `if (stats[k]) { stats[k]++; } else { stats[k] = 1; }`. A missing key and
   * a count of 0 are both falsy; either way the result is one more than the
   * count so far, taking a missing key as 0.
   */
  function Increment(stats: Tally, k: Bucket): (r: Tally)
    ensures r.Keys == stats.Keys + {k}
    ensures r[k] == (if k in stats then stats[k] else 0) + 1
    ensures forall j :: j in stats && j != k ==> r[j] == stats[j]
  {
    if k in stats && stats[k] != 0 then stats[k := stats[k] + 1] else stats[k := 1]
  }

  /** Counting one more key is one `Increment`. */
  lemma HistogramSnoc(keys: seq<Bucket>, k: Bucket)
    ensures Histogram(keys + [k]) == Increment(Histogram(keys), k)
  {
    assert multiset(keys + [k]) == multiset(keys) + multiset{k};
    var a, b := Histogram(keys + [k]), Increment(Histogram(keys), k);
    assert a.Keys == b.Keys;
    forall j | j in a ensures a[j] == b[j] {
    }
  }

  /**
   * The loop of `generateStatistics` over the events returned by `getAll`:
   * all four tables are filled in one pass, each equal to the reference tally
   * of its keys.
   */
  method GenerateStatistics(events: seq<Event>)
    returns (yearStats: Tally, cityStats: Tally, monthStats: Tally, livehouseStats: Tally)
    ensures yearStats == Histogram(Keys(events, Year))
    ensures cityStats == Histogram(Keys(events, City))
    ensures monthStats == Histogram(Keys(events, Month))
    ensures livehouseStats == Histogram(Keys(events, Livehouse))
  {
    yearStats, cityStats, livehouseStats, monthStats := map[], map[], map[], map[];
    for i := 0 to |events|
      invariant yearStats == Histogram(Keys(events[..i], Year))
      invariant cityStats == Histogram(Keys(events[..i], City))
      invariant monthStats == Histogram(Keys(events[..i], Month))
      invariant livehouseStats == Histogram(Keys(events[..i], Livehouse))
    {
      var event := events[i];
      TallyStep(events, i);

      yearStats := Increment(yearStats, Some(event.year));

      var city := JsString.At(JsString.Split(event.location, ' '), 0);
      assert city == Key(City, event);
      cityStats := Increment(cityStats, city);

      var month := JsString.At(JsString.Split(event.date, '-'), 1);
      assert month == Key(Month, event);
      monthStats := Increment(monthStats, month);

      var livehouse := JsString.At(JsString.Split(event.location, ' '), 1);
      assert livehouse == Key(Livehouse, event);
      livehouseStats := Increment(livehouseStats, livehouse);
    }
    assert events[..|events|] == events;
  }

  /** One more event is one `Increment` of each table, under that event's key. */
  lemma TallyStep(events: seq<Event>, i: nat)
    requires i < |events|
    ensures forall f: Field :: Histogram(Keys(events[..i + 1], f))
                            == Increment(Histogram(Keys(events[..i], f)), Key(f, events[i]))
  {
    forall f: Field
      ensures Histogram(Keys(events[..i + 1], f)) == Increment(Histogram(Keys(events[..i], f)), Key(f, events[i]))
    {
      assert Keys(events[..i + 1], f) == Keys(events[..i], f) + [Key(f, events[i])];
      HistogramSnoc(Keys(events[..i], f), Key(f, events[i]));
    }
  }

  /** The sum of the counts `m` gives to the keys `ks` (a missing key counts 0). */
  function Total(m: Tally, ks: seq<Bucket>): (sum: nat) {
    if ks == [] then 0
    else
      var k := ks[|ks| - 1];
      Total(m, ks[..|ks| - 1]) + (if k in m then m[k] else 0)
  }

  lemma {:induction false} TotalIncrement(m: Tally, ks: seq<Bucket>, x: Bucket)
    requires Seqs.NoDuplicates(ks)
    ensures Total(Increment(m, x), ks) == Total(m, ks) + (if x in ks then 1 else 0)
  {
    if ks != [] {
      var p := ks[..|ks| - 1];
      assert ks == p + [ks[|ks| - 1]];
      assert Seqs.NoDuplicates(p);
      TotalIncrement(m, p, x);
    }
  }

  /**
   * The counts add up to the number of keys: summed over every key of the
   * tally, each listed once, they give `|keys|`.
   */
  lemma {:induction false} HistogramTotal(keys: seq<Bucket>)
    ensures Total(Histogram(keys), Seqs.Distinct(keys)) == |keys|
  {
    if keys != [] {
      var p := keys[..|keys| - 1];
      var x := keys[|keys| - 1];
      assert keys == p + [x];
      var d := Seqs.Distinct(p);
      HistogramTotal(p);
      HistogramSnoc(p, x);
      TotalIncrement(Histogram(p), d, x);
      if x !in d {
        assert Seqs.Distinct(keys) == d + [x];
        assert (d + [x])[..|d|] == d;
        assert x !in multiset(p);
      }
    }
  }

  /** The keys present in a table are exactly the keys of the events. */
  lemma TallyKeys(events: seq<Event>, f: Field, k: Bucket)
    ensures k in Histogram(Keys(events, f)) <==> exists i :: 0 <= i < |events| && Key(f, events[i]) == k
  {
    var ks := Keys(events, f);
    if k in Histogram(ks) {
      assert k in ks;
      var i :| 0 <= i < |ks| && ks[i] == k;
      assert Key(f, events[i]) == k;
    } else {
      forall i | 0 <= i < |events| ensures Key(f, events[i]) != k {
        assert ks[i] in multiset(ks);
      }
    }
  }

  /** The positions of `ks` that hold `k`. */
  function Positions(ks: seq<Bucket>, k: Bucket): (ps: set<nat>) {
    set i: nat | i < |ks| && ks[i] == k
  }

  lemma {:induction false} MultisetCountsPositions(ks: seq<Bucket>, k: Bucket)
    ensures multiset(ks)[k] == |Positions(ks, k)|
  {
    if ks != [] {
      var p, x := ks[..|ks| - 1], ks[|ks| - 1];
      assert ks == p + [x];
      MultisetCountsPositions(p, k);
      if x == k {
        assert Positions(ks, k) == Positions(p, k) + {|p|};
      } else {
        assert Positions(ks, k) == Positions(p, k);
      }
    }
  }

  /**
   * The count of every key is the number of events whose key it is, taking
   * a key that is not in the table as 0.
   */
  lemma TallyCount(events: seq<Event>, f: Field, k: Bucket)
    ensures var m := Histogram(Keys(events, f));
      (if k in m then m[k] else 0) == |set i: nat | i < |events| && Key(f, events[i]) == k|
  {
    var ks := Keys(events, f);
    MultisetCountsPositions(ks, k);
    assert Positions(ks, k) == set i: nat | i < |events| && Key(f, events[i]) == k;
  }

  /**
   * The counts of a table add up to the number of events: `Distinct` lists
   * every key of the table exactly once, and the sum over that list is `|events|`.
   */
  lemma TallyTotal(events: seq<Event>, f: Field)
    ensures Seqs.NoDuplicates(Seqs.Distinct(Keys(events, f)))
    ensures forall k :: k in Histogram(Keys(events, f)) <==> k in Seqs.Distinct(Keys(events, f))
    ensures Total(Histogram(Keys(events, f)), Seqs.Distinct(Keys(events, f))) == |events|
  {
    var ks := Keys(events, f);
    var m := Histogram(ks);
    HistogramTotal(ks);
    var d := Seqs.Distinct(ks);
    forall k ensures k in m <==> k in d {
      if k in d {
        var i :| 0 <= i < |d| && d[i] == k;
      }
      if k in m {
        assert k in ks;
        var i :| 0 <= i < |ks| && ks[i] == k;
      }
    }
  }

  /** The city is the text of `location` before the first space, or all of it; never `undefined`. */
  lemma CityKey(e: Event)
    ensures Key(City, e) == Some(JsString.Before(e.location, ' '))
  {
    JsString.SplitPieceZero(e.location, ' ');
  }

  /**
   * The venue is `undefined` when `location` has no space, and otherwise the
   * text between its first and second space.
   */
  lemma LivehouseKey(e: Event)
    ensures Key(Livehouse, e).None? <==> ' ' !in e.location
    ensures ' ' in e.location ==>
      Key(Livehouse, e) == Some(JsString.Before(JsString.After(e.location, ' '), ' '))
  {
    JsString.SplitPieceOne(e.location, ' ');
  }

  /**
   * The month is `undefined` when `date` has no `-`, and otherwise the text
   * between its first and second `-`.
   */
  lemma MonthKey(e: Event)
    ensures Key(Month, e).None? <==> '-' !in e.date
    ensures '-' in e.date ==>
      Key(Month, e) == Some(JsString.Before(JsString.After(e.date, '-'), '-'))
  {
    JsString.SplitPieceOne(e.date, '-');
  }

  /** A single event is tallied once, under its own key. */
  lemma TallyOfOne(e: Event, f: Field)
    ensures Histogram(Keys([e], f)) == map[Key(f, e) := 1]
  {
    assert Keys([e], f) == [Key(f, e)];
    assert multiset([Key(f, e)]) == multiset{Key(f, e)};
  }

  /** A location of two space-free words has the first as city and the second as venue. */
  lemma TwoWordLocation(e: Event, city: string, venue: string)
    requires e.location == city + [' '] + venue
    requires ' ' !in city && ' ' !in venue
    ensures Key(City, e) == Some(city) && Key(Livehouse, e) == Some(venue)
  {
    JsString.SplitAtSeparator(city, venue, ' ');
    JsString.SplitNoSeparator(venue, ' ');
  }

  /** A date of three `-`-free parts has the middle one as month. */
  lemma ThreePartDate(e: Event, y: string, m: string, d: string)
    requires e.date == y + ['-'] + (m + ['-'] + d)
    requires '-' !in y && '-' !in m && '-' !in d
    ensures Key(Month, e) == Some(m)
  {
    JsString.SplitAtSeparator(y, m + ['-'] + d, '-');
    JsString.SplitAtSeparator(m, d, '-');
    JsString.SplitNoSeparator(d, '-');
  }

  /** An event in "Beijing Livehouse" is tallied as Beijing: 1 by city and Livehouse: 1 by venue. */
  lemma BeijingLocationExample(e: Event)
    requires e.location == "Beijing Livehouse"
    ensures Histogram(Keys([e], City)) == map[Some("Beijing") := 1]
    ensures Histogram(Keys([e], Livehouse)) == map[Some("Livehouse") := 1]
  {
    assert e.location == "Beijing" + [' '] + "Livehouse";
    TwoWordLocation(e, "Beijing", "Livehouse");
    TallyOfOne(e, City);
    TallyOfOne(e, Livehouse);
  }

  /** An event on "2021-07-15" is tallied as 07: 1 by month. */
  lemma JulyDateExample(e: Event)
    requires e.date == "2021-07-15"
    ensures Histogram(Keys([e], Month)) == map[Some("07") := 1]
  {
    assert e.date == "2021" + ['-'] + ("07" + ['-'] + "15");
    ThreePartDate(e, "2021", "07", "15");
    TallyOfOne(e, Month);
  }
}
