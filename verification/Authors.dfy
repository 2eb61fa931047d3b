/** The busiest 30-day window of a commit history. */
module Authors {
  import opened Wrappers
  import opened Sequences

  /** Instants are integers, zero being Go's zero time; `day` is the calendar day in the commit's own zone. */
  datatype Time = Time(instant: int, day: int)

  datatype Commit = Commit(email: string, time: Time)

  const ZERO_TIME := Time(0, 0)

  predicate IsZero(t: Time) {
    t.instant == 0
  }

  datatype Window = Window(start: int, end: int)

  /** No window is reported while no author has been counted. */
  datatype RollingWindow = RollingWindow(maxAuthors: nat, window: Option<Window>)

  ghost function AuthorsOn(commits: seq<Commit>, lower: string -> string, day: int): set<string> {
    set c | c in commits && c.time.day == day :: lower(c.email)
  }

  /** The distinct authors of the 30 days that end on `end`. */
  ghost function WindowAuthors(commits: seq<Commit>, lower: string -> string, end: int): set<string> {
    set c | c in commits && end - 29 <= c.time.day <= end :: lower(c.email)
  }

  function Earliest(commits: seq<Commit>): Time {
    if commits == [] then ZERO_TIME
    else
      var min, t := Earliest(commits[..|commits| - 1]), commits[|commits| - 1].time;
      if IsZero(min) || t.instant < min.instant then t else min
  }

  function Latest(commits: seq<Commit>): Time {
    if commits == [] then ZERO_TIME
    else
      var max, t := Latest(commits[..|commits| - 1]), commits[|commits| - 1].time;
      if IsZero(max) || t.instant > max.instant then t else max
  }

  /** No commit carries the zero time, and the order of days agrees with the order of instants. */
  ghost predicate Orderly(commits: seq<Commit>) {
    && (forall c :: c in commits ==> !IsZero(c.time))
    && (forall a, b :: a in commits && b in commits && a.time.instant <= b.time.instant ==> a.time.day <= b.time.day)
  }

  lemma {:induction false} EarliestIsFirst(commits: seq<Commit>)
    requires commits != [] && forall c :: c in commits ==> !IsZero(c.time)
    ensures exists c :: c in commits && c.time == Earliest(commits)
    ensures forall c :: c in commits ==> Earliest(commits).instant <= c.time.instant
  {
    var n := |commits| - 1;
    var init, last := commits[..n], commits[n];
    assert commits == init + [last];
    assert forall c :: c in commits <==> c in init || c == last;
    if n > 0 {
      EarliestIsFirst(init);
      var c :| c in init && c.time == Earliest(init);
      assert c in commits;
    }
  }

  lemma {:induction false} LatestIsLast(commits: seq<Commit>)
    requires commits != [] && forall c :: c in commits ==> !IsZero(c.time)
    ensures exists c :: c in commits && c.time == Latest(commits)
    ensures forall c :: c in commits ==> c.time.instant <= Latest(commits).instant
  {
    var n := |commits| - 1;
    var init, last := commits[..n], commits[n];
    assert commits == init + [last];
    assert forall c :: c in commits <==> c in init || c == last;
    if n > 0 {
      LatestIsLast(init);
      var c :| c in init && c.time == Latest(init);
      assert c in commits;
    }
  }

  /** `r` is the busiest of the windows that end from `first` up to, and not including, `next`, and the first such. */
  ghost predicate BusiestOf(commits: seq<Commit>, lower: string -> string, first: int, next: int, r: RollingWindow) {
    && (forall end :: first <= end < next ==> |WindowAuthors(commits, lower, end)| <= r.maxAuthors)
    && (r.maxAuthors == 0 <==> r.window.None?)
    && (r.window.Some? ==>
          && r.window.value.start == r.window.value.end - 29
          && first <= r.window.value.end < next
          && |WindowAuthors(commits, lower, r.window.value.end)| == r.maxAuthors
          && forall end :: first <= end < r.window.value.end ==> |WindowAuthors(commits, lower, end)| < r.maxAuthors)
  }

  /** `r` is the busiest window of the whole calendar, and the first such. */
  ghost predicate Busiest(commits: seq<Commit>, lower: string -> string, r: RollingWindow) {
    && r.window.Some?
    && r.window.value.start == r.window.value.end - 29
    && |WindowAuthors(commits, lower, r.window.value.end)| == r.maxAuthors
    && (forall end :: |WindowAuthors(commits, lower, end)| <= r.maxAuthors)
    && (forall end :: end < r.window.value.end ==> |WindowAuthors(commits, lower, end)| < r.maxAuthors)
  }

  lemma OrderlyBusiest(commits: seq<Commit>, lower: string -> string, r: RollingWindow)
    requires commits != [] && Orderly(commits)
    requires BusiestOf(commits, lower, Earliest(commits).day, Latest(commits).day + 1, r)
    ensures Busiest(commits, lower, r)
  {
    EarliestIsFirst(commits);
    LatestIsLast(commits);
    var first, last := Earliest(commits).day, Latest(commits).day;
    var a :| a in commits && a.time == Earliest(commits);
    var b :| b in commits && b.time == Latest(commits);
    assert forall c :: c in commits ==> first <= c.time.day <= last;
    assert lower(a.email) in WindowAuthors(commits, lower, first);
    forall end ensures |WindowAuthors(commits, lower, end)| <= r.maxAuthors {
      if end < first {
        assert WindowAuthors(commits, lower, end) == {};
      } else if end > last {
        SubsetSize(WindowAuthors(commits, lower, end), WindowAuthors(commits, lower, last));
      }
    }
    assert |WindowAuthors(commits, lower, first)| > 0;
    forall end | end < r.window.value.end ensures |WindowAuthors(commits, lower, end)| < r.maxAuthors {
      if end < first {
        assert WindowAuthors(commits, lower, end) == {};
      }
    }
  }

  // ---- Exactly when the scan finds the maximum of the whole calendar

  /** What the scan reports: nothing without a first day, otherwise the busiest of the windows between first and last day. */
  ghost predicate Scanned(commits: seq<Commit>, lower: string -> string, r: RollingWindow) {
    if commits == [] || IsZero(Earliest(commits)) then r == RollingWindow(0, None)
    else BusiestOf(commits, lower, Earliest(commits).day, Latest(commits).day + 1, r)
  }

  /** `n` is the number of authors of the busiest window there is. */
  ghost predicate CalendarMaximum(commits: seq<Commit>, lower: string -> string, n: nat) {
    && (forall end :: |WindowAuthors(commits, lower, end)| <= n)
    && (exists end :: |WindowAuthors(commits, lower, end)| == n)
  }

  /** Some scanned window holds the day of the commit. */
  ghost predicate InReach(commits: seq<Commit>, i: nat)
    requires i < |commits|
  {
    Earliest(commits).day - 29 <= commits[i].time.day <= Latest(commits).day
  }

  /** No other commit fits into a window with this one. */
  ghost predicate Alone(commits: seq<Commit>, i: nat)
    requires i < |commits|
  {
    forall j :: 0 <= j < |commits| && j != i ==> !Near(commits[i].time.day, commits[j].time.day)
  }

  predicate Near(a: int, b: int) {
    -29 <= a - b <= 29
  }

  /** The scanned days are not empty, and every commit out of their reach is alone. */
  ghost predicate Covered(commits: seq<Commit>) {
    commits == [] || (
      && !IsZero(Earliest(commits)) && Earliest(commits).day <= Latest(commits).day
      && forall i :: 0 <= i < |commits| ==> InReach(commits, i) || Alone(commits, i))
  }

  lemma {:induction false} EarliestIsSome(commits: seq<Commit>)
    requires commits != [] && !IsZero(Earliest(commits))
    ensures exists c :: c in commits && c.time == Earliest(commits)
  {
    var n := |commits| - 1;
    var init := commits[..n];
    assert commits == init + [commits[n]];
    if n > 0 && Earliest(commits) != commits[n].time {
      EarliestIsSome(init);
      var c :| c in init && c.time == Earliest(init);
      assert c in commits;
    }
  }

  /** The scan finds an author whenever its range is not empty. */
  lemma SomethingScanned(commits: seq<Commit>, lower: string -> string, r: RollingWindow)
    requires commits != [] && !IsZero(Earliest(commits)) && Earliest(commits).day <= Latest(commits).day
    requires Scanned(commits, lower, r)
    ensures r.maxAuthors > 0
  {
    EarliestIsSome(commits);
    var c :| c in commits && c.time == Earliest(commits);
    assert lower(c.email) in WindowAuthors(commits, lower, Earliest(commits).day);
  }

  /** A window that holds a commit standing alone has one author. */
  lemma AloneInWindow(commits: seq<Commit>, lower: string -> string, end: int, i: nat)
    requires i < |commits| && Alone(commits, i) && end - 29 <= commits[i].time.day <= end
    ensures |WindowAuthors(commits, lower, end)| <= 1
  {
    forall c | c in commits && end - 29 <= c.time.day <= end ensures c == commits[i] {
      var j :| 0 <= j < |commits| && commits[j] == c;
      assert Near(commits[i].time.day, commits[j].time.day);
    }
    SubsetSize(WindowAuthors(commits, lower, end), {lower(commits[i].email)});
  }

  lemma CoveredIsExact(commits: seq<Commit>, lower: string -> string, r: RollingWindow)
    requires Covered(commits) && Scanned(commits, lower, r)
    ensures CalendarMaximum(commits, lower, r.maxAuthors)
  {
    if commits == [] {
      assert forall end :: WindowAuthors(commits, lower, end) == {};
      assert |WindowAuthors(commits, lower, 0)| == 0;
    } else {
      SomethingScanned(commits, lower, r);
      var first, last := Earliest(commits).day, Latest(commits).day;
      forall end ensures |WindowAuthors(commits, lower, end)| <= r.maxAuthors {
        if i :| 0 <= i < |commits| && end - 29 <= commits[i].time.day <= end && !InReach(commits, i) {
          AloneInWindow(commits, lower, end, i);
        } else {
          forall c | c in commits && end - 29 <= c.time.day <= end ensures first - 29 <= c.time.day <= last {
            var i :| 0 <= i < |commits| && commits[i] == c;
            assert InReach(commits, i);
          }
          var nearest := if end < first then first else if end > last then last else end;
          SubsetSize(WindowAuthors(commits, lower, end), WindowAuthors(commits, lower, nearest));
        }
      }
      assert |WindowAuthors(commits, lower, r.window.value.end)| == r.maxAuthors;
    }
  }

  /** The same times, committed by anyone. */
  ghost predicate SameTimes(a: seq<Commit>, b: seq<Commit>) {
    |a| == |b| && forall i :: 0 <= i < |a| ==> a[i].time == b[i].time
  }

  lemma {:induction false} SameRange(a: seq<Commit>, b: seq<Commit>)
    requires SameTimes(a, b)
    ensures Earliest(a) == Earliest(b) && Latest(a) == Latest(b)
  {
    if a != [] { SameRange(a[..|a| - 1], b[..|b| - 1]); }
  }

  lemma SameCovered(a: seq<Commit>, b: seq<Commit>)
    requires SameTimes(a, b) && Covered(a)
    ensures Covered(b)
  {
    SameRange(a, b);
    forall i | 0 <= i < |b| ensures InReach(b, i) || Alone(b, i) {
      assert InReach(a, i) || Alone(a, i);
    }
  }

  /** Two authors are enough to show what the scan misses. */
  ghost function TwoAuthors(commits: seq<Commit>, i: nat, a: string, b: string): seq<Commit> {
    seq(|commits|, k requires 0 <= k < |commits| => Commit(if k == i then a else b, commits[k].time))
  }

  lemma OneAuthorScanned(commits: seq<Commit>, lower: string -> string, i: nat, a: string, b: string, r: RollingWindow)
    requires i < |commits| && !InReach(commits, i) && !IsZero(Earliest(commits))
    requires Scanned(TwoAuthors(commits, i, a, b), lower, r)
    ensures r.maxAuthors <= 1
  {
    var other := TwoAuthors(commits, i, a, b);
    SameRange(commits, other);
    if r.window.Some? {
      var end := r.window.value.end;
      forall c | c in other && end - 29 <= c.time.day <= end ensures c.email == b {
        var k :| 0 <= k < |other| && other[k] == c;
      }
      SubsetSize(WindowAuthors(other, lower, end), {lower(b)});
    }
  }

  lemma TwoAuthorsTogether(commits: seq<Commit>, lower: string -> string, i: nat, j: nat, a: string, b: string)
    requires i < |commits| && j < |commits| && i != j && Near(commits[i].time.day, commits[j].time.day) && lower(a) != lower(b)
    ensures exists end :: |WindowAuthors(TwoAuthors(commits, i, a, b), lower, end)| >= 2
  {
    var other := TwoAuthors(commits, i, a, b);
    var end := if other[i].time.day < other[j].time.day then other[j].time.day else other[i].time.day;
    assert other[i] in other && other[j] in other;
    SubsetSize({lower(a), lower(b)}, WindowAuthors(other, lower, end));
  }

  lemma UncoveredIsMissed(commits: seq<Commit>, lower: string -> string, a: string, b: string) returns (other: seq<Commit>)
    requires !Covered(commits) && lower(a) != lower(b)
    ensures SameTimes(commits, other)
    ensures forall r :: Scanned(other, lower, r) ==> !CalendarMaximum(other, lower, r.maxAuthors)
  {
    if IsZero(Earliest(commits)) || Earliest(commits).day > Latest(commits).day {
      other := commits;
      assert lower(commits[0].email) in WindowAuthors(commits, lower, commits[0].time.day);
    } else {
      hide WindowAuthors, Scanned;
      var i :| 0 <= i < |commits| && !InReach(commits, i) && !Alone(commits, i);
      var j :| 0 <= j < |commits| && j != i && Near(commits[i].time.day, commits[j].time.day);
      other := TwoAuthors(commits, i, a, b);
      TwoAuthorsTogether(commits, lower, i, j, a, b);
      forall r | Scanned(other, lower, r) ensures r.maxAuthors <= 1 {
        OneAuthorScanned(commits, lower, i, a, b, r);
      }
    }
  }

  lemma ScanResult(commits: seq<Commit>, lower: string -> string) returns (r: RollingWindow)
    ensures Scanned(commits, lower, r)
  {
    r := RollingWindow(0, None);
    if commits != [] && !IsZero(Earliest(commits)) {
      var first, last := Earliest(commits).day, Latest(commits).day;
      var end := first;
      while end <= last
        invariant first <= end && BusiestOf(commits, lower, first, end, r) && (end <= last + 1 || end == first)
      {
        OneWindowMore(commits, lower, first, end, r);
        var n := |WindowAuthors(commits, lower, end)|;
        r := if n > r.maxAuthors then RollingWindow(n, Some(Window(end - 29, end))) else r;
        end := end + 1;
      }
      BusiestUpTo(commits, lower, first, end, last + 1, r);
    }
  }

  /**
   * Whoever the commits at these times are by, the scan reports the maximum over all windows of the calendar:
   * exactly when the scanned days are not empty and every commit out of their reach is alone.
   */
  lemma ScanExactIff(commits: seq<Commit>, lower: string -> string, a: string, b: string)
    requires lower(a) != lower(b)
    ensures Covered(commits) <==>
      forall other, r :: SameTimes(commits, other) && Scanned(other, lower, r) ==> CalendarMaximum(other, lower, r.maxAuthors)
  {
    hide Covered, Scanned, CalendarMaximum, SameTimes;
    if Covered(commits) {
      forall other, r | SameTimes(commits, other) && Scanned(other, lower, r) ensures CalendarMaximum(other, lower, r.maxAuthors) {
        SameCovered(commits, other);
        CoveredIsExact(other, lower, r);
      }
    } else {
      var other := UncoveredIsMissed(commits, lower, a, b);
      var r := ScanResult(other, lower);
    }
  }

  lemma OrderlyCovered(commits: seq<Commit>)
    requires Orderly(commits)
    ensures Covered(commits)
  {
    if commits != [] {
      EarliestIsFirst(commits);
      LatestIsLast(commits);
      forall i | 0 <= i < |commits| ensures InReach(commits, i) { assert commits[i] in commits; }
    }
  }

  lemma OneTime(a: Commit)
    ensures Earliest([a]) == a.time == Latest([a])
  {
    assert [a][..0] == [];
    assert Earliest([]) == ZERO_TIME == Latest([]);
  }

  /**
   * Two commits an instant apart whose zones put them on neighbouring days, the later one on the earlier day:
   * nothing is scanned, although one window holds both authors.
   */
  lemma ZonesLoseAWindow(lower: string -> string, first: int, second: int, day: int)
    requires 0 < first < second && lower("a") != lower("b")
    ensures var commits := [Commit("a", Time(first, day + 1)), Commit("b", Time(second, day))];
      && (forall r :: Scanned(commits, lower, r) ==> r == RollingWindow(0, None))
      && |WindowAuthors(commits, lower, day + 1)| == 2
  {
    var a, b := Commit("a", Time(first, day + 1)), Commit("b", Time(second, day));
    var commits := [a, b];
    assert commits[..1] == [a];
    OneTime(a);
    assert Earliest(commits) == a.time && Latest(commits) == b.time;
    assert forall x :: x in commits <==> x == a || x == b;
    assert WindowAuthors(commits, lower, day + 1) == {lower("a"), lower("b")};
  }

  // ---- The algorithm

  ghost predicate Daily(commits: seq<Commit>, lower: string -> string, daily: map<int, set<string>>) {
    && (forall c :: c in commits ==> c.time.day in daily)
    && (forall d :: d in daily ==> daily[d] == AuthorsOn(commits, lower, d))
  }

  method DailyAuthors(commits: seq<Commit>, lower: string -> string) returns (daily: map<int, set<string>>)
    ensures Daily(commits, lower, daily)
  {
    daily := map[];
    for i := 0 to |commits|
      invariant Daily(commits[..i], lower, daily)
    {
      var c := commits[i];
      assert commits[..i + 1] == commits[..i] + [c];
      assert c.time.day !in daily ==> AuthorsOn(commits[..i], lower, c.time.day) == {};
      var authors := (if c.time.day in daily then daily[c.time.day] else {}) + {lower(c.email)};
      assert authors == AuthorsOn(commits[..i + 1], lower, c.time.day);
      forall d | d != c.time.day ensures AuthorsOn(commits[..i + 1], lower, d) == AuthorsOn(commits[..i], lower, d) {}
      daily := daily[c.time.day := authors];
    }
    assert commits[..|commits|] == commits;
  }

  method AuthorsInWindow(ghost commits: seq<Commit>, ghost lower: string -> string, daily: map<int, set<string>>, end: int)
    returns (authors: set<string>)
    requires Daily(commits, lower, daily)
    ensures authors == WindowAuthors(commits, lower, end)
  {
    authors := {};
    var d := end - 29;
    while d <= end
      invariant end - 29 <= d <= end + 1
      invariant authors == set c | c in commits && end - 29 <= c.time.day < d :: lower(c.email)
    {
      assert d !in daily ==> AuthorsOn(commits, lower, d) == {};
      ghost var next := set c | c in commits && end - 29 <= c.time.day < d + 1 :: lower(c.email);
      assert next == authors + AuthorsOn(commits, lower, d);
      if d in daily {
        authors := authors + daily[d];
      }
      d := d + 1;
    }
  }

  /** The earliest and latest instants, as the loop finds them. */
  method DateRange(commits: seq<Commit>) returns (minDate: Time, maxDate: Time)
    ensures minDate == Earliest(commits) && maxDate == Latest(commits)
  {
    minDate, maxDate := ZERO_TIME, ZERO_TIME;
    for i := 0 to |commits|
      invariant minDate == Earliest(commits[..i]) && maxDate == Latest(commits[..i])
    {
      var t := commits[i].time;
      assert commits[..i + 1][..i] == commits[..i];
      if IsZero(minDate) || t.instant < minDate.instant {
        minDate := t;
      }
      if IsZero(maxDate) || t.instant > maxDate.instant {
        maxDate := t;
      }
    }
    assert commits[..|commits|] == commits;
  }

  method CalculateMaxMonthlyAuthors(commits: seq<Commit>, lower: string -> string) returns (r: RollingWindow)
    ensures Scanned(commits, lower, r)
    ensures Covered(commits) ==> CalendarMaximum(commits, lower, r.maxAuthors)
    ensures commits != [] && Orderly(commits) ==> Busiest(commits, lower, r)
  {
    hide WindowAuthors, BusiestOf, Daily, Busiest, Orderly, Earliest, Latest, Covered, CalendarMaximum;
    r := RollingWindow(0, None);
    if |commits| == 0 {
      if Covered(commits) { CoveredIsExact(commits, lower, r); }
      return;
    }
    var daily := DailyAuthors(commits, lower);
    var minDate, maxDate := DateRange(commits);
    if Orderly(commits) { OrderlyHasNoZero(commits); }
    if IsZero(minDate) {
      if Covered(commits) { CoveredIsExact(commits, lower, r); }
      return;
    }
    NothingScanned(commits, lower, minDate.day);
    var current := minDate.day;
    while current <= maxDate.day
      invariant BusiestOf(commits, lower, minDate.day, current, r)
      invariant minDate.day <= current && (current <= maxDate.day + 1 || current == minDate.day)
      decreases maxDate.day - current
    {
      var authors := AuthorsInWindow(commits, lower, daily, current);
      OneWindowMore(commits, lower, minDate.day, current, r);
      if |authors| > r.maxAuthors {
        r := RollingWindow(|authors|, Some(Window(current - 29, current)));
      }
      current := current + 1;
    }
    BusiestUpTo(commits, lower, minDate.day, current, maxDate.day + 1, r);
    if Covered(commits) { CoveredIsExact(commits, lower, r); }
    if Orderly(commits) { OrderlyBusiest(commits, lower, r); }
  }

  lemma OrderlyHasNoZero(commits: seq<Commit>)
    requires Orderly(commits) && commits != []
    ensures !IsZero(Earliest(commits))
  {
    EarliestIsFirst(commits);
  }

  lemma NothingScanned(commits: seq<Commit>, lower: string -> string, first: int)
    ensures BusiestOf(commits, lower, first, first, RollingWindow(0, None))
  {}

  lemma OneWindowMore(commits: seq<Commit>, lower: string -> string, first: int, end: int, r: RollingWindow)
    requires BusiestOf(commits, lower, first, end, r) && first <= end
    ensures var n := |WindowAuthors(commits, lower, end)|;
      BusiestOf(commits, lower, first, end + 1, if n > r.maxAuthors then RollingWindow(n, Some(Window(end - 29, end))) else r)
  {
    hide WindowAuthors;
  }

  lemma BusiestUpTo(commits: seq<Commit>, lower: string -> string, first: int, reached: int, next: int, r: RollingWindow)
    requires BusiestOf(commits, lower, first, reached, r) && (reached == next || (reached == first && next <= first))
    ensures BusiestOf(commits, lower, first, next, r)
  {
    hide WindowAuthors;
  }

  lemma TwoZeroTimes(a: Commit, b: Commit)
    requires IsZero(a.time)
    ensures Earliest([a, b]) == b.time == Latest([a, b])
  {
    assert [a, b][..1] == [a];
    OneTime(a);
  }

  /**
   * No commit read from git carries the zero time. Handed some, the function forgets them as soon as another commit
   * follows, and never scans the windows around their day.
   */
  lemma ZeroTimesAreMissed(lower: string -> string, day: int, other: int)
    requires other > 0 && other > day + 29 && lower("a") != lower("b")
    ensures var commits := [Commit("a", Time(0, day)), Commit("b", Time(0, day)), Commit("c", Time(other, other))];
      && Earliest(commits).day == Latest(commits).day == other
      && |WindowAuthors(commits, lower, other)| == 1 && |WindowAuthors(commits, lower, day)| == 2
  {
    var a, b, c := Commit("a", Time(0, day)), Commit("b", Time(0, day)), Commit("c", Time(other, other));
    var commits := [a, b, c];
    assert commits[..2] == [a, b];
    TwoZeroTimes(a, b);
    assert forall x :: x in commits <==> x == a || x == b || x == c;
    assert WindowAuthors(commits, lower, other) == {lower("c")};
    assert WindowAuthors(commits, lower, day) == {lower("a"), lower("b")};
  }
}
