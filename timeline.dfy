/**
 * The deterministic part of the timeline rendering: which side each entry
 * goes on (`displayEvents`) and which year markers are drawn (`displayYears`).
 */
module Timeline {
  import opened Events
  import Seqs

  datatype Side = Left | Right {
    function Other(): (s: Side) {
      if this == Left then Right else Left
    }
  }

  /** The class `displayEvents` adds to the entry at `index`: `index % 2 === 0 ? 'left' : 'right'`. */
  function SideOf(index: nat): (s: Side) {
    if index % 2 == 0 then Left else Right
  }

  /** The side of every entry, in the order `getAll` returned them. */
  function Layout(events: seq<Event>): (sides: seq<Side>)
    ensures |sides| == |events|
    ensures forall i :: 0 <= i < |sides| ==> (sides[i] == Left <==> i % 2 == 0)
  {
    seq(|events|, i requires 0 <= i < |events| => SideOf(i))
  }

  /** Reference definition: `n` sides, starting with `first` and switching at every step. */
  function Alternating(n: nat, first: Side): (sides: seq<Side>)
    ensures |sides| == n
  {
    if n == 0 then [] else [first] + Alternating(n - 1, first.Other())
  }

  lemma {:induction false} SideOfFrom(n: nat, k: nat)
    ensures seq(n, i requires 0 <= i < n => SideOf(k + i)) == Alternating(n, SideOf(k))
  {
    if n > 0 {
      SideOfFrom(n - 1, k + 1);
      assert SideOf(k + 1) == SideOf(k).Other();
      var lhs := seq(n, i requires 0 <= i < n => SideOf(k + i));
      assert lhs[1..] == seq(n - 1, i requires 0 <= i < n - 1 => SideOf(k + 1 + i));
      assert lhs == [lhs[0]] + lhs[1..];
    }
  }

  /** The layout starts on the left and alternates: left, right, left, ... */
  lemma LayoutAlternates(events: seq<Event>)
    ensures Layout(events) == Alternating(|events|, Left)
  {
    SideOfFrom(|events|, 0);
    assert Layout(events) == seq(|events|, i requires 0 <= i < |events| => SideOf(0 + i));
  }

  /** `events.map(event => event.year)`. */
  function Years(events: seq<Event>): (ys: seq<string>)
    ensures |ys| == |events|
  {
    seq(|events|, i requires 0 <= i < |events| => events[i].year)
  }

  /**
   * The year markers of the timeline, `[...new Set(Years(events))]`: every
   * event's year once, in the order in which years first occur.
   */
  function DistinctYears(events: seq<Event>): (ys: seq<string>)
    ensures |ys| <= |events|
    ensures Seqs.NoDuplicates(ys)
    ensures forall i :: 0 <= i < |events| ==> events[i].year in ys
    ensures forall y :: y in ys ==> exists i :: 0 <= i < |events| && events[i].year == y
  {
    var ys := Seqs.Distinct(Years(events));
    assert forall i :: 0 <= i < |events| ==> Years(events)[i] == events[i].year;
    ys
  }

  /** Markers are in first-seen order. */
  lemma DistinctYearsOrder(events: seq<Event>, i: nat, j: nat)
    requires i < j < |DistinctYears(events)|
    ensures Seqs.FirstIndex(Years(events), DistinctYears(events)[i])
          < Seqs.FirstIndex(Years(events), DistinctYears(events)[j])
  {
    Seqs.DistinctFirstSeenOrder(Years(events), i, j);
  }

  function Sample(id: int, year: string): (e: Event) {
    Event(id, year, "", "", "", Wrappers.None, Wrappers.None, Wrappers.None)
  }

  /** Years 2019, 2020, 2019 give the markers 2019, 2020. */
  lemma DistinctYearsExample()
    ensures DistinctYears([Sample(1, "2019"), Sample(2, "2020"), Sample(3, "2019")]) == ["2019", "2020"]
  {
    var events := [Sample(1, "2019"), Sample(2, "2020"), Sample(3, "2019")];
    var ys := Years(events);
    assert ys == ["2019", "2020", "2019"];
    assert ys[..2][..1] == ["2019"];
    assert Seqs.Distinct(ys[..2][..1]) == ["2019"];
    assert Seqs.Distinct(ys[..2]) == ["2019", "2020"];
  }
}
