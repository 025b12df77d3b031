// The aggregated percent of an image pull (internal/runtime/container/docker.go):
// layers announce their sizes one by one, so the plain ratio can fall; what is
// reported must not.
module PullProgress {
  import opened MachineInts

  /** Go's integer division, which truncates toward zero. */
  function Quotient(a: int, b: int): int
    requires b > 0
  {
    if a >= 0 then a / b else -(-a / b)
  }

  datatype Event = Event(status: string, id: string, current: Int64, total: Int64)

  datatype Layer = Layer(current: Int64, total: Int64)

  const NO_LAYER := Layer(0, 0)

  predicate IsDownload(e: Event) {
    e.id != "" && (e.status == "Downloading" || e.status == "Download complete" || e.status == "Already exists")
  }

  /** What an event makes of its layer. */
  function Updated(l: Layer, e: Event): Layer {
    if e.status == "Downloading" then
      if e.total > 0 then Layer(e.current, e.total) else l
    else if e.status == "Download complete" || e.status == "Already exists" then
      if l.total > 0 then Layer(l.total, l.total) else l
    else l
  }

  function LayerOf(layers: map<string, Layer>, id: string): Layer {
    if id in layers then layers[id] else NO_LAYER
  }

  // ------------------------------------------------------------------ sums of layers

  function Size(layers: map<string, Layer>, id: string, announced: bool): int
    requires id in layers
  {
    if announced then layers[id].total else layers[id].current
  }

  /** The bytes announced, or downloaded, over some of the layers. */
  ghost function SumOver(layers: map<string, Layer>, ids: set<string>, announced: bool): int
    requires ids <= layers.Keys
    decreases |ids|
  {
    if ids == {} then 0
    else
      var id :| id in ids;
      Size(layers, id, announced) + SumOver(layers, ids - {id}, announced)
  }

  ghost function Announced(layers: map<string, Layer>): int {
    SumOver(layers, layers.Keys, true)
  }

  ghost function Downloaded(layers: map<string, Layer>): int {
    SumOver(layers, layers.Keys, false)
  }

  /** Any layer may be taken out of the sum first. */
  lemma {:induction false} SumTakesAny(layers: map<string, Layer>, ids: set<string>, id: string, announced: bool)
    requires ids <= layers.Keys && id in ids
    ensures SumOver(layers, ids, announced) == Size(layers, id, announced) + SumOver(layers, ids - {id}, announced)
    decreases |ids|
  {
    var first: string :| first in ids
      && SumOver(layers, ids, announced) == Size(layers, first, announced) + SumOver(layers, ids - {first}, announced);
    if first != id {
      SumTakesAny(layers, ids - {first}, id, announced);
      SumTakesAny(layers, ids - {id}, first, announced);
      assert ids - {first} - {id} == ids - {id} - {first};
    }
  }

  // ------------------------------------------------------------------------ the loop

  datatype State = State(layers: map<string, Layer>, maxPct: int, reports: seq<int>)

  const START := State(map[], -1, [])

  function Percent(downloaded: int, announced: int, maxPct: int): int {
    var cur, tot := Wrap64(downloaded), Wrap64(announced);
    if tot <= 0 then -1
    else
      var pct := Quotient(Wrap64(cur * 100), tot);
      if pct < maxPct then maxPct else pct
  }

  ghost function Next(s: State, e: Event): State {
    if e.id == "" then s
    else
      var layers := s.layers[e.id := Updated(LayerOf(s.layers, e.id), e)];
      if !IsDownload(e) then s.(layers := layers)
      else
        var pct := Percent(Downloaded(layers), Announced(layers), s.maxPct);
        State(layers, if Wrap64(Announced(layers)) > 0 then pct else s.maxPct, s.reports + [pct])
  }

  ghost function After(events: seq<Event>): State {
    if events == [] then START else Next(After(events[..|events| - 1]), events[|events| - 1])
  }

  /** The two int64 sums, over the layers in whatever order the map yields them. */
  method SumLayers(layers: map<string, Layer>) returns (cur: Int64, tot: Int64)
    ensures cur == Wrap64(Downloaded(layers)) && tot == Wrap64(Announced(layers))
  {
    cur, tot := 0, 0;
    var left := layers.Keys;
    ghost var a, d := 0, 0;
    while left != {}
      invariant left <= layers.Keys
      invariant cur == Wrap64(d) && tot == Wrap64(a)
      invariant d + SumOver(layers, left, false) == Downloaded(layers)
      invariant a + SumOver(layers, left, true) == Announced(layers)
      decreases left
    {
      var id :| id in left;
      SumTakesAny(layers, left, id, false);
      SumTakesAny(layers, left, id, true);
      WrapAddition(d, layers[id].current);
      WrapAddition(a, layers[id].total);
      cur := Wrap64(cur + layers[id].current);
      tot := Wrap64(tot + layers[id].total);
      d := d + layers[id].current;
      a := a + layers[id].total;
      left := left - {id};
    }
  }

  /** Reads the events of one pull, up to its end or the first that cannot be decoded. */
  method ConsumePullStream(instanceID: string, events: seq<Event>) returns (reports: seq<int>)
    ensures reports == if instanceID == "" then [] else After(events).reports
  {
    hide Wrap64, Quotient;
    reports := [];
    if instanceID == "" {
      return;
    }
    var layers: map<string, Layer> := map[];
    var maxPct := -1;
    var i := 0;
    while i < |events|
      invariant 0 <= i <= |events|
      invariant After(events[..i]) == State(layers, maxPct, reports)
    {
      var ev := events[i];
      assert events[..i + 1][..i] == events[..i];
      i := i + 1;
      if ev.id == "" {
        continue;
      }
      var ls := if ev.id in layers then layers[ev.id] else NO_LAYER;
      if ev.status == "Downloading" {
        if ev.total > 0 {
          ls := Layer(ev.current, ev.total);
        }
      } else if ev.status == "Download complete" || ev.status == "Already exists" {
        if ls.total > 0 {
          ls := Layer(ls.total, ls.total);
        }
      } else {
        layers := layers[ev.id := ls];
        continue;
      }
      layers := layers[ev.id := ls];
      var cur, tot := SumLayers(layers);
      var pct := -1;
      if tot > 0 {
        pct := Quotient(Wrap64((cur as int) * 100), tot);
        if pct < maxPct {
          pct := maxPct;
        }
        maxPct := pct;
      }
      reports := reports + [pct];
    }
    assert events[..i] == events;
  }

  // ------------------------------------------------------------- what totals guarantee

  predicate Announces(layers: map<string, Layer>) {
    forall id <- layers :: layers[id].total >= 0
  }

  predicate WithinTotals(layers: map<string, Layer>) {
    forall id <- layers :: 0 <= layers[id].current <= layers[id].total
  }

  lemma {:induction false} SumOfTotals(layers: map<string, Layer>, ids: set<string>)
    requires ids <= layers.Keys && Announces(layers)
    ensures SumOver(layers, ids, true) >= 0
    ensures forall id <- ids :: layers[id].total <= SumOver(layers, ids, true)
    decreases |ids|
  {
    if ids != {} {
      var first :| first in ids;
      SumTakesAny(layers, ids, first, true);
      SumOfTotals(layers, ids - {first});
    }
  }

  lemma {:induction false} DownloadedWithinAnnounced(layers: map<string, Layer>, ids: set<string>)
    requires ids <= layers.Keys && WithinTotals(layers)
    ensures 0 <= SumOver(layers, ids, false) <= SumOver(layers, ids, true)
    decreases |ids|
  {
    if ids != {} {
      var first :| first in ids;
      SumTakesAny(layers, ids, first, true);
      SumTakesAny(layers, ids, first, false);
      DownloadedWithinAnnounced(layers, ids - {first});
    }
  }

  lemma {:induction false} NobodyAnnounced(layers: map<string, Layer>, ids: set<string>)
    requires ids <= layers.Keys && forall id <- ids :: layers[id].total == 0
    ensures SumOver(layers, ids, true) == 0
    decreases |ids|
  {
    if ids != {} {
      var first :| first in ids;
      SumTakesAny(layers, ids, first, true);
      NobodyAnnounced(layers, ids - {first});
    }
  }

  /** Totals are never negative, and some size stays announced once one is. */
  lemma AnnouncementsStay(layers: map<string, Layer>, e: Event)
    requires Announces(layers)
    ensures var next := layers[e.id := Updated(LayerOf(layers, e.id), e)];
            Announces(next) && Announced(layers) >= 0 && (Announced(layers) > 0 ==> Announced(next) > 0)
  {
    var next := layers[e.id := Updated(LayerOf(layers, e.id), e)];
    SumOfTotals(layers, layers.Keys);
    SumOfTotals(next, next.Keys);
    if Announced(layers) > 0 {
      if forall id <- layers :: layers[id].total == 0 {
        NobodyAnnounced(layers, layers.Keys);
      }
      var id :| id in layers && layers[id].total != 0;
      assert next[id].total > 0;
    }
  }

  // ---------------------------------------------------------------- the bar never falls

  /** The announced bytes fit an int64 throughout. */
  ghost predicate SumsFit(events: seq<Event>) {
    forall n | 0 <= n <= |events| :: Announced(After(events[..n]).layers) < TWO_63
  }

  predicate NeverFalls(reports: seq<int>) {
    forall i, j | 0 <= i < j < |reports| :: reports[i] <= reports[j]
  }

  ghost predicate HighWater(s: State) {
    && Announces(s.layers) && s.maxPct >= -1 && NeverFalls(s.reports)
    && (forall r <- s.reports :: -1 <= r <= s.maxPct)
    && (Announced(s.layers) == 0 ==> s.maxPct == -1)
  }

  lemma FitsUnwrapped(x: int)
    requires 0 <= x < TWO_63
    ensures Wrap64(x) == x
  {
  }

  lemma PercentNeverFalls(d: int, a: int, maxPct: int)
    requires 0 <= a < TWO_63 && maxPct >= -1
    ensures Wrap64(a) == a
    ensures a == 0 ==> Percent(d, a, maxPct) == -1
    ensures a > 0 ==> Percent(d, a, maxPct) >= maxPct
  {
    hide Quotient;
    FitsUnwrapped(a);
  }

  /** What one event adds to the reports. */
  lemma StepShape(s: State, e: Event)
    requires s.maxPct >= -1 && 0 <= Announced(Next(s, e).layers) < TWO_63
    ensures var next := Next(s, e);
            var a, d := Announced(next.layers), Downloaded(next.layers);
            if IsDownload(e)
            then next.reports == s.reports + [Percent(d, a, s.maxPct)]
              && next.maxPct == if a > 0 then Percent(d, a, s.maxPct) else s.maxPct
            else next.reports == s.reports && next.maxPct == s.maxPct
  {
    hide Percent, Updated, SumOver;
    PercentNeverFalls(Downloaded(Next(s, e).layers), Announced(Next(s, e).layers), s.maxPct);
  }

  lemma NextAnnounces(s: State, e: Event)
    requires Announces(s.layers)
    ensures var next := Next(s, e);
            && Announces(next.layers) && 0 <= Announced(s.layers) && 0 <= Announced(next.layers)
            && (Announced(s.layers) > 0 ==> Announced(next.layers) > 0)
  {
    hide SumOver, Updated, Percent;
    AnnouncementsStay(s.layers, e);
    SumOfTotals(s.layers, s.layers.Keys);
    SumOfTotals(Next(s, e).layers, Next(s, e).layers.Keys);
  }

  lemma StepKeepsHighWater(s: State, e: Event)
    requires HighWater(s) && Announced(Next(s, e).layers) < TWO_63
    ensures HighWater(Next(s, e))
  {
    hide Next, SumOver, Percent, Announced, Downloaded, Announces;
    NextAnnounces(s, e);
    StepShape(s, e);
    var next := Next(s, e);
    PercentNeverFalls(Downloaded(next.layers), Announced(next.layers), s.maxPct);
    assert forall i | 0 <= i < |s.reports| :: s.reports[i] in s.reports;
    if IsDownload(e) {
      assert next.reports == s.reports + [next.reports[|s.reports|]];
      assert s.maxPct <= next.maxPct;
    }
  }

  lemma {:induction false} StreamKeepsHighWater(events: seq<Event>)
    requires SumsFit(events)
    ensures HighWater(After(events))
  {
    hide HighWater, Next;
    if events == [] {
      EmptyHighWater();
    } else {
      var shorter := events[..|events| - 1];
      assert events[..|events|] == events;
      forall n | 0 <= n <= |shorter|
        ensures Announced(After(shorter[..n]).layers) < TWO_63
      {
        assert shorter[..n] == events[..n];
      }
      StreamKeepsHighWater(shorter);
      StepKeepsHighWater(After(shorter), events[|events| - 1]);
    }
  }

  lemma EmptyHighWater()
    ensures HighWater(START)
  {
    NobodyAnnounced(map[], {});
  }

  /** Whatever the sizes, as long as their sum fits: a report is never lower than an
      earlier one, so none is indeterminate once one was not. */
  lemma ReportsNeverFall(events: seq<Event>)
    requires SumsFit(events)
    ensures NeverFalls(After(events).reports) && forall r <- After(events).reports :: r >= -1
  {
    StreamKeepsHighWater(events);
  }

  // ------------------------------------------------------------- what a percent means

  /** Every layer's progress lies within its size, and a hundred times the sum fits. */
  ghost predicate WellFormed(events: seq<Event>) {
    && (forall e <- events :: e.status == "Downloading" && e.id != "" && e.total > 0 ==> 0 <= e.current <= e.total)
    && forall n | 0 <= n <= |events| :: 100 * Announced(After(events[..n]).layers) < TWO_63
  }

  ghost predicate IsComplete(layers: map<string, Layer>) {
    Announced(layers) > 0 && Downloaded(layers) == Announced(layers)
  }

  /** After some download event, every byte announced so far had been downloaded. */
  ghost predicate EverComplete(events: seq<Event>) {
    exists n | 0 < n <= |events| :: IsDownload(events[n - 1]) && IsComplete(After(events[..n]).layers)
  }

  lemma Share(d: int, a: int)
    requires 0 <= d <= a && a > 0
    ensures 0 <= d * 100 / a <= 100
    ensures d * 100 / a == 100 <==> d == a
  {
    var q := d * 100 / a;
    var r := d * 100 % a;
    assert d * 100 == q * a + r && 0 <= r < a;
    if q >= 101 {
      assert q * a >= 101 * a by { MulGrows(101, q, a); }
    }
    if q < 0 {
      assert q * a <= -1 * a by { MulGrows(q, -1, a); }
    }
    if q <= 99 {
      assert q * a <= 99 * a by { MulGrows(q, 99, a); }
    }
  }

  lemma MulGrows(x: int, y: int, a: int)
    requires x <= y && a > 0
    ensures x * a <= y * a
  {
  }

  lemma PercentOfShares(d: int, a: int, maxPct: int)
    requires 0 <= d <= a && 100 * a < TWO_63 && -1 <= maxPct <= 100
    ensures var pct := Percent(d, a, maxPct);
            && -1 <= pct <= 100 && (a == 0 ==> pct == -1)
            && (a > 0 ==> (pct == 100 <==> maxPct == 100 || d == a))
  {
    hide Wrap64;
    FitsUnwrapped(d);
    FitsUnwrapped(a);
    FitsUnwrapped(d * 100);
    if a > 0 {
      Share(d, a);
    }
  }

  ghost predicate Meaningful(events: seq<Event>) {
    var s := After(events);
    && HighWater(s) && WithinTotals(s.layers) && s.maxPct <= 100
    && (s.maxPct == 100 <==> EverComplete(events))
  }

  lemma {:induction false} StreamIsMeaningful(events: seq<Event>)
    requires WellFormed(events)
    ensures Meaningful(events)
  {
    hide HighWater, Next, SumOver;
    if events == [] {
      EmptyHighWater();
    } else {
      WellFormedPrefix(events);
      var shorter := events[..|events| - 1];
      StreamIsMeaningful(shorter);
      LastEventIsMeaningful(events);
    }
  }

  lemma WellFormedPrefix(events: seq<Event>)
    requires WellFormed(events) && events != []
    ensures WellFormed(events[..|events| - 1]) && 100 * Announced(After(events).layers) < TWO_63
  {
    hide After, Announced;
    var shorter := events[..|events| - 1];
    assert events[..|events|] == events;
    forall n | 0 <= n <= |shorter|
      ensures 100 * Announced(After(shorter[..n]).layers) < TWO_63
    {
      assert shorter[..n] == events[..n];
    }
  }

  lemma StillEverComplete(events: seq<Event>)
    requires events != [] && EverComplete(events[..|events| - 1])
    ensures EverComplete(events)
  {
    hide After, IsComplete, IsDownload;
    var shorter := events[..|events| - 1];
    var n :| 0 < n <= |shorter| && IsDownload(shorter[n - 1]) && IsComplete(After(shorter[..n]).layers);
    assert shorter[..n] == events[..n] && shorter[n - 1] == events[n - 1];
  }

  lemma EverCompleteStep(events: seq<Event>)
    requires events != []
    ensures EverComplete(events)
       <==> (EverComplete(events[..|events| - 1])
             || (IsDownload(events[|events| - 1]) && IsComplete(After(events).layers)))
  {
    hide After, IsComplete, IsDownload;
    var shorter := events[..|events| - 1];
    assert events[..|events|] == events;
    if EverComplete(shorter) {
      StillEverComplete(events);
    }
    if EverComplete(events) {
      var n :| 0 < n <= |events| && IsDownload(events[n - 1]) && IsComplete(After(events[..n]).layers);
      if n < |events| {
        assert shorter[..n] == events[..n] && shorter[n - 1] == events[n - 1];
      }
    }
  }

  lemma StepStaysWithin(s: State, e: Event)
    requires WithinTotals(s.layers)
    requires e.status == "Downloading" && e.id != "" && e.total > 0 ==> 0 <= e.current <= e.total
    ensures WithinTotals(Next(s, e).layers)
    ensures 0 <= Downloaded(Next(s, e).layers) <= Announced(Next(s, e).layers)
  {
    hide SumOver, Percent;
    DownloadedWithinAnnounced(Next(s, e).layers, Next(s, e).layers.Keys);
  }

  lemma LastEventIsMeaningful(events: seq<Event>)
    requires events != [] && WellFormed(events) && Meaningful(events[..|events| - 1])
    requires 100 * Announced(After(events).layers) < TWO_63
    ensures Meaningful(events)
  {
    hide SumOver, Percent, EverComplete, Announces, HighWater, Next, WithinTotals, Announced, Downloaded;
    var s, e := After(events[..|events| - 1]), events[|events| - 1];
    var next := After(events);
    assert next == Next(s, e) && e in events;
    EverCompleteStep(events);
    StepStaysWithin(s, e);
    StepKeepsHighWater(s, e);
    HighWaterAnnounces(s);
    NextAnnounces(s, e);
    StepShape(s, e);
    if IsDownload(e) {
      PercentOfShares(Downloaded(next.layers), Announced(next.layers), s.maxPct);
    }
  }

  lemma HighWaterAnnounces(s: State)
    requires HighWater(s)
    ensures Announces(s.layers) && s.maxPct >= -1 && (Announced(s.layers) == 0 ==> s.maxPct == -1)
  {
  }

  /** Of a well-formed pull: every report lies in -1..100, and the one for a download
      event is 100 exactly when, then or at some earlier download event, every byte
      announced so far had been downloaded. */
  lemma PercentMeansDownloaded(events: seq<Event>)
    requires WellFormed(events)
    ensures forall r <- After(events).reports :: -1 <= r <= 100
    ensures events != [] && IsDownload(events[|events| - 1]) ==>
              var reports := After(events).reports;
              reports != [] && (reports[|reports| - 1] == 100 <==> EverComplete(events))
  {
    hide EverComplete, Next, WellFormed, Announced, WithinTotals, Announces;
    StreamIsMeaningful(events);
    if events != [] && IsDownload(events[|events| - 1]) {
      LastReport(events);
    }
  }

  /** The last report is the high-water mark, or -1 before any size is announced. */
  lemma LastReport(events: seq<Event>)
    requires WellFormed(events) && events != [] && IsDownload(events[|events| - 1])
    ensures var reports := After(events).reports;
            reports != [] && (reports[|reports| - 1] == 100 <==> After(events).maxPct == 100)
  {
    hide HighWater, Next, SumOver, WithinTotals, Announces, EverComplete, Percent, Announced, WellFormed;
    var s, e := After(events[..|events| - 1]), events[|events| - 1];
    assert After(events) == Next(s, e);
    WellFormedPrefix(events);
    StreamIsMeaningful(events[..|events| - 1]);
    StreamIsMeaningful(events);
    HighWaterAnnounces(s);
    HighWaterAnnounces(After(events));
    NextAnnounces(s, e);
    StepShape(s, e);
    PercentNeverFalls(Downloaded(After(events).layers), Announced(After(events).layers), s.maxPct);
  }

  // --------------------------------------------------- what the sums are sums of

  /** The event gives the layer its size and progress. */
  predicate Sizes(e: Event, id: string) {
    e.id == id && e.status == "Downloading" && e.total > 0
  }

  predicate Finishes(e: Event, id: string) {
    e.id == id && (e.status == "Download complete" || e.status == "Already exists")
  }

  /** A layer counts nothing until an event gives its size. */
  lemma {:induction false} UnsizedLayer(events: seq<Event>, id: string)
    requires id != "" && forall e <- events :: !Sizes(e, id)
    ensures LayerOf(After(events).layers, id) == Layer(0, 0)
  {
    hide SumOver, Percent;
    if events != [] {
      var before := events[..|events| - 1];
      assert events[|events| - 1] in events && forall e <- before :: e in events;
      UnsizedLayer(before, id);
    }
  }

  /** Then it counts what the latest such event says, or its whole size once it has
      finished since. */
  lemma {:induction false} SizedLayer(events: seq<Event>, id: string, n: nat)
    requires id != "" && n < |events| && Sizes(events[n], id)
    requires forall k | n < k < |events| :: !Sizes(events[k], id)
    ensures LayerOf(After(events).layers, id)
         == Layer(if exists k | n < k < |events| :: Finishes(events[k], id) then events[n].total else events[n].current,
                  events[n].total)
  {
    hide SumOver, Percent;
    var m := |events| - 1;
    if n < m {
      var before := events[..m];
      SizedLayer(before, id, n);
      assert forall k | n < k < m :: before[k] == events[k];
      if k :| n < k < m && Finishes(events[k], id) {
        assert Finishes(before[k], id);
      }
    }
  }

  // ------------------------------------------------------------- which percent it is

  /** The high-water mark has been reported. */
  lemma {:induction false} MarkWasReported(events: seq<Event>)
    requires SumsFit(events)
    ensures After(events).maxPct == -1 || After(events).maxPct in After(events).reports
  {
    hide Next, Announced, Downloaded, Percent;
    if events != [] {
      var before := events[..|events| - 1];
      assert events[..|events|] == events;
      forall n | 0 <= n <= |before|
        ensures Announced(After(before[..n]).layers) < TWO_63
      {
        assert before[..n] == events[..n];
      }
      MarkWasReported(before);
      StreamKeepsHighWater(before);
      HighWaterAnnounces(After(before));
      NextAnnounces(After(before), events[|events| - 1]);
      StepShape(After(before), events[|events| - 1]);
    }
  }

  lemma WellFormedSums(events: seq<Event>)
    requires WellFormed(events)
    ensures SumsFit(events)
  {
    hide After, Announced;
  }

  /** Whole percents, rounded down. */
  predicate IsShare(r: int, d: int, a: int) {
    r * a <= 100 * d < (r + 1) * a
  }

  predicate IsAbove(r: int, d: int, a: int) {
    r * a > 100 * d
  }

  lemma FloorOfShare(d: int, a: int, maxPct: int)
    requires 0 <= d <= a && 0 < a && 100 * a < TWO_63 && maxPct >= -1
    ensures var r := Percent(d, a, maxPct); IsShare(r, d, a) || (r == maxPct > 0 && IsAbove(r, d, a))
  {
    hide Percent;
    PercentIsQuotient(d, a, maxPct);
    var q := d * 100 / a;
    FloorIsShare(d, a);
    if maxPct > q {
      MulGrows(q + 1, maxPct, a);
    }
  }

  lemma PercentIsQuotient(d: int, a: int, maxPct: int)
    requires 0 <= d <= a && 0 < a && 100 * a < TWO_63
    ensures Percent(d, a, maxPct) == if d * 100 / a < maxPct then maxPct else d * 100 / a
  {
    hide Wrap64;
    FitsUnwrapped(d);
    FitsUnwrapped(a);
    FitsUnwrapped(d * 100);
  }

  lemma FloorIsShare(d: int, a: int)
    requires 0 <= d && 0 < a
    ensures d * 100 / a >= 0 && IsShare(d * 100 / a, d, a)
  {
    var q := d * 100 / a;
    assert d * 100 == q * a + d * 100 % a;
  }

  /** A report is the announced share that is downloaded, in whole percents rounded down,
      or an earlier report that was higher; and -1 while nothing is announced. */
  lemma ReportIsShare(events: seq<Event>) returns (r: int)
    requires WellFormed(events) && events != [] && IsDownload(events[|events| - 1])
    ensures var s, reports := After(events), After(events[..|events| - 1]).reports;
            var a, d := Announced(s.layers), Downloaded(s.layers);
            && s.reports == reports + [r]
            && (a == 0 ==> r == -1)
            && (a > 0 ==> IsShare(r, d, a) || (r in reports && IsAbove(r, d, a)))
  {
    hide After, Meaningful, HighWater, Next, SumOver, Announces, Percent, Announced, Downloaded;
    hide WellFormed, SumsFit, IsShare, IsAbove;
    var before, e := events[..|events| - 1], events[|events| - 1];
    var s := After(before);
    LastStep(events);
    WellFormedPrefix(events);
    StreamIsMeaningful(before);
    StreamIsMeaningful(events);
    WellFormedSums(before);
    MarkWasReported(before);
    WithinMeans(before);
    WithinMeans(events);
    HighWaterAnnounces(s);
    NextAnnounces(s, e);
    StepShape(s, e);
    var a, d := Announced(After(events).layers), Downloaded(After(events).layers);
    PercentNeverFalls(d, a, s.maxPct);
    if a > 0 {
      FloorOfShare(d, a, s.maxPct);
    }
    r := Percent(d, a, s.maxPct);
  }

  function DownloadEvents(events: seq<Event>): nat {
    if events == [] then 0
    else
      var e := events[|events| - 1];
      DownloadEvents(events[..|events| - 1])
      + if e.id != "" && e.status in ["Downloading", "Download complete", "Already exists"] then 1 else 0
  }

  /** One report for each download event of a layer, and none for anything else. */
  lemma {:induction false} OneReportEach(events: seq<Event>)
    ensures |After(events).reports| == DownloadEvents(events)
  {
    hide Announced, Downloaded, Percent, Updated;
    if events != [] {
      OneReportEach(events[..|events| - 1]);
    }
  }

  lemma LastStep(events: seq<Event>)
    requires events != []
    ensures After(events) == Next(After(events[..|events| - 1]), events[|events| - 1])
  {
  }

  lemma WithinMeans(events: seq<Event>)
    requires Meaningful(events)
    ensures 0 <= Downloaded(After(events).layers) <= Announced(After(events).layers) && HighWater(After(events))
  {
    hide SumOver, HighWater, EverComplete;
    DownloadedWithinAnnounced(After(events).layers, After(events).layers.Keys);
  }
}
