/**
 * The chart of one vital (`VitalChart`): the keys of its data sorted, the
 * latest five kept, and the labels and tracks handed to the chart library.
 * Blood pressure gets two tracks and loses the legacy keys "0" and "1".
 */
module VitalChart {
  import opened Wrappers
  import opened JsText
  import opened JsNumber
  import opened VitalData

  /** Strictly increasing in the key order (hence without repeats). */
  predicate Ascending(s: seq<string>) {
    forall i, j :: 0 <= i < j < |s| ==> LexLt(s[i], s[j])
  }

  lemma {:induction false} LexLeAntisymmetricAll()
    ensures forall a, b :: LexLe(a, b) && LexLe(b, a) ==> a == b
  {
    forall a, b | LexLe(a, b) && LexLe(b, a) {
      LexLeAntisymmetric(a, b);
    }
  }

  lemma {:induction false} LexLeReflexive(a: string)
    ensures LexLe(a, a)
    decreases |a|
  {
    if a != [] {
      LexLeReflexive(a[1..]);
    }
  }

  lemma {:induction false} MaxExists(keys: set<string>)
    requires keys != {}
    ensures exists m :: m in keys && forall k :: k in keys ==> LexLe(k, m)
    decreases keys
  {
    var x :| x in keys;
    LexLeReflexive(x);
    if keys != {x} {
      MaxExists(keys - {x});
      var m :| m in keys - {x} && forall k :: k in keys - {x} ==> LexLe(k, m);
      LexLeTotal(x, m);
      if LexLe(x, m) {
        assert forall k :: k in keys ==> LexLe(k, m);
      } else {
        forall k | k in keys
          ensures LexLe(k, x)
        {
          if k != x {
            LexLeTransitive(k, m, x);
          }
        }
      }
    }
  }

  /** The greatest key of a non-empty set. */
  function MaxKey(keys: set<string>): (m: string)
    requires keys != {}
    ensures m in keys && forall k :: k in keys ==> LexLe(k, m)
  {
    MaxExists(keys);
    LexLeAntisymmetricAll();
    var m :| m in keys && forall k :: k in keys ==> LexLe(k, m);
    m
  }

  /** `Object.keys(data).sort()`: every key once, in ascending order. */
  function SortedKeys(keys: set<string>): (r: seq<string>)
    ensures Ascending(r) && |r| == |keys|
    ensures forall k :: k in r <==> k in keys
    decreases keys
  {
    if keys == {} then []
    else
      var m := MaxKey(keys);
      var rest := SortedKeys(keys - {m});
      assert forall i :: 0 <= i < |rest| ==> LexLt(rest[i], m);
      rest + [m]
  }

  /** The last element of an ascending sequence is its greatest. */
  lemma {:induction false} LastIsGreatest(s: seq<string>, k: string)
    requires Ascending(s) && k in s
    ensures LexLe(k, s[|s| - 1])
    ensures k in s[..|s| - 1] <==> k != s[|s| - 1]
  {
    var i :| 0 <= i < |s| && s[i] == k;
    if i == |s| - 1 {
      LexLeReflexive(k);
    } else {
      assert s[..|s| - 1][i] == k;
    }
  }

  /** Two ascending sequences with the same elements are equal: the sorted
      order of a key set is the only ascending arrangement of it. */
  lemma {:induction false} AscendingUnique(a: seq<string>, b: seq<string>)
    requires Ascending(a) && Ascending(b)
    requires forall k :: k in a <==> k in b
    ensures a == b
    decreases |a|
  {
    assert b != [] ==> b[0] in a;
    if a != [] {
      assert a[|a| - 1] in b;
      var la, lb := a[|a| - 1], b[|b| - 1];
      LastIsGreatest(b, la);
      LastIsGreatest(a, lb);
      LexLeAntisymmetric(la, lb);
      var a', b' := a[..|a| - 1], b[..|b| - 1];
      SameInitial(a, b, a', b');
      AscendingUnique(a', b');
      assert a == a' + [la] && b == b' + [lb];
    }
  }

  /** Two ascending sequences with the same elements and the same last
      element agree on the elements before it. */
  lemma {:induction false} SameInitial(a: seq<string>, b: seq<string>, a': seq<string>, b': seq<string>)
    requires Ascending(a) && Ascending(b) && a != [] && b != []
    requires forall k :: k in a <==> k in b
    requires a[|a| - 1] == b[|b| - 1]
    requires a' == a[..|a| - 1] && b' == b[..|b| - 1]
    ensures forall k :: k in a' <==> k in b'
  {
    forall k
      ensures k in a' <==> k in b'
    {
      if k in a || k in b {
        LastIsGreatest(a, k);
        LastIsGreatest(b, k);
      } else {
        assert k !in a' && k !in b';
      }
    }
  }

  /** The number of points a chart shows. */
  const WindowSize: nat := 5

  /** `sorted.slice(-5)`: the last five elements, or all of them when there
      are fewer. */
  function LatestFive(sorted: seq<string>): (w: seq<string>)
    ensures |w| == if |sorted| < WindowSize then |sorted| else WindowSize
    ensures w == sorted[|sorted| - |w|..]
  {
    sorted[if |sorted| > WindowSize then |sorted| - WindowSize else 0..]
  }

  /** The keys a chart shows before any filtering: `sortedDates.slice(-5)`. */
  function Window(data: Option<Series>): (w: seq<string>)
    ensures Ascending(w)
    ensures forall k :: k in w ==> k in OrEmpty(data)
  {
    var sorted := SortedKeys(OrEmpty(data).Keys);
    var w := LatestFive(sorted);
    AscendingSuffix(sorted, |sorted| - |w|);
    w
  }

  /** A suffix of an ascending sequence is ascending and holds only its
      elements. */
  lemma {:induction false} AscendingSuffix(s: seq<string>, start: nat)
    requires Ascending(s) && start <= |s|
    ensures Ascending(s[start..])
    ensures forall k :: k in s[start..] ==> k in s
  {
    var t := s[start..];
    forall i, j | 0 <= i < j < |t|
      ensures LexLt(t[i], t[j])
    {
      assert t[i] == s[start + i] && t[j] == s[start + j];
    }
    forall k | k in t
      ensures k in s
    {
      var i :| 0 <= i < |t| && t[i] == k;
      assert s[start + i] == k;
    }
  }

  /** The keys of `keys` that come after `k`. */
  function Above(keys: set<string>, k: string): (later: set<string>) {
    set j | j in keys && LexLt(k, j)
  }

  lemma {:induction false} AscendingCard(s: seq<string>)
    requires Ascending(s)
    ensures |set x | x in s| == |s|
  {
    if s != [] {
      var init := s[..|s| - 1];
      AscendingCard(init);
      assert s[|s| - 1] !in init;
      assert (set x | x in s) == (set x | x in init) + {s[|s| - 1]};
    }
  }

  /** In an ascending arrangement of `keys`, the keys above `s[i]` are exactly
      the elements after position `i`. */
  lemma {:induction false} AboveInSorted(keys: set<string>, s: seq<string>, i: nat)
    requires Ascending(s) && forall k :: k in s <==> k in keys
    requires i < |s|
    ensures |Above(keys, s[i])| == |s| - i - 1
  {
    var tail := s[i + 1..];
    AscendingSuffix(s, i + 1);
    AscendingCard(tail);
    LexLeAntisymmetricAll();
    forall j | j in keys
      ensures LexLt(s[i], j) <==> j in tail
    {
      var l :| 0 <= l < |s| && s[l] == j;
      if l <= i {
        if l < i {
          assert LexLt(s[l], s[i]);
        }
        assert !LexLt(s[i], j);
        assert j !in tail;
      } else {
        assert tail[l - i - 1] == j;
      }
    }
    assert Above(keys, s[i]) == set x | x in tail;
  }

  /** In an ascending sequence, `s[i]` lies in the suffix from `start` on
      exactly when `i` does. */
  lemma {:induction false} InSuffix(s: seq<string>, i: nat, start: nat)
    requires Ascending(s) && i < |s| && start <= |s|
    ensures s[i] in s[start..] <==> i >= start
  {
    if i >= start {
      assert s[start..][i - start] == s[i];
    } else {
      forall m | 0 <= m < |s| - start
        ensures s[start..][m] != s[i]
      {
        assert LexLt(s[i], s[start + m]);
      }
    }
  }

  /** The window holds exactly the keys that have fewer than five keys above
      them: the five latest dates, or all dates when there are fewer. */
  lemma {:induction false} WindowIsLatest(data: Option<Series>, k: string)
    ensures k in Window(data) <==> k in OrEmpty(data) && |Above(OrEmpty(data).Keys, k)| < WindowSize
    ensures |Window(data)| == if |OrEmpty(data)| < WindowSize then |OrEmpty(data)| else WindowSize
  {
    WindowLength(data);
    if k in OrEmpty(data) {
      WindowMember(data, k);
    }
  }

  lemma {:induction false} WindowLength(data: Option<Series>)
    ensures |Window(data)| == if |OrEmpty(data)| < WindowSize then |OrEmpty(data)| else WindowSize
  {
    var s := SortedKeys(OrEmpty(data).Keys);
    assert Window(data) == LatestFive(s);
    assert |s| == |OrEmpty(data)|;
  }

  lemma {:induction false} WindowMember(data: Option<Series>, k: string)
    requires k in OrEmpty(data)
    ensures k in Window(data) <==> |Above(OrEmpty(data).Keys, k)| < WindowSize
  {
    var keys := OrEmpty(data).Keys;
    var s := SortedKeys(keys);
    var w := LatestFive(s);
    assert Window(data) == w;
    assert k in s;
    var i :| 0 <= i < |s| && s[i] == k;
    AboveInSorted(keys, s, i);
    InSuffix(s, i, |s| - |w|);
  }

  /** The window of a series is the ascending arrangement of exactly those
      keys: no other order and no other keys are possible. */
  lemma {:induction false} WindowDetermined(data: Option<Series>, w: seq<string>)
    requires Ascending(w)
    requires forall k :: k in w <==> k in OrEmpty(data) && |Above(OrEmpty(data).Keys, k)| < WindowSize
    ensures w == Window(data)
  {
    forall k
      ensures k in w <==> k in Window(data)
    {
      WindowIsLatest(data, k);
    }
    AscendingUnique(w, Window(data));
  }

  /** The pre-date keys that old blood-pressure data carries. */
  predicate IsLegacyKey(d: string) {
    d == "0" || d == "1"
  }

  /** `dates.filter(date => date !== '0' && date !== '1')` */
  function WithoutLegacy(dates: seq<string>): (r: seq<string>)
    ensures forall d :: d in r <==> d in dates && !IsLegacyKey(d)
    ensures Ascending(dates) ==> Ascending(r)
    ensures |r| <= |dates|
  {
    if dates == [] then []
    else
      var rest := WithoutLegacy(dates[1..]);
      assert forall d :: d in dates <==> d == dates[0] || d in dates[1..];
      if IsLegacyKey(dates[0]) then rest
      else
        assert Ascending(dates) ==> forall i :: 0 <= i < |rest| ==> LexLt(dates[0], rest[i]) by {
          if Ascending(dates) {
            forall i | 0 <= i < |rest|
              ensures LexLt(dates[0], rest[i])
            {
              assert rest[i] in rest;
              var l :| 0 <= l < |dates[1..]| && dates[1..][l] == rest[i];
              assert dates[l + 1] == rest[i];
            }
          }
        }
        [dates[0]] + rest
  }

  /** A value handed to the chart library for one label. */
  datatype Point = Null | Undefined | Num(n: Number) | Array(systolic: Number, diastolic: Option<Number>)

  /** A stored reading as the chart library receives it. */
  function AsPoint(e: Entry): (p: Point) {
    match e
    case Scalar(n) => Num(n)
    case Pair(s, d) => Array(s, d)
  }

  /** `data[date]` */
  function ValueAt(data: Series, d: string): (p: Point) {
    if d in data then AsPoint(data[d]) else Undefined
  }

  /** JavaScript truthiness of a stored reading: an array always is, a
      number unless zero or NaN. */
  predicate EntryTruthy(e: Entry) {
    e.Pair? || Truthy(e.n)
  }

  /** `data[date][i]`, for a present reading. */
  function Element(e: Entry, i: nat): (p: Point) {
    match e
    case Scalar(_) => Undefined
    case Pair(s, d) =>
      if i == 0 then Num(s)
      else if i == 1 && d.Some? then Num(d.value)
      else Undefined
  }

  /** `data[date] ? data[date][i] : null` */
  function BloodPressurePoint(data: Series, d: string, i: nat): (p: Point)
    ensures p == Null <==> !(d in data && EntryTruthy(data[d]))
    ensures d in data && data[d].Pair? && i == 0 ==> p == Num(data[d].systolic)
    ensures d in data && data[d].Pair? && i == 1 ==>
      p == if data[d].diastolic.Some? then Num(data[d].diastolic.value) else Undefined
    ensures d in data && data[d].Scalar? && Truthy(data[d].n) ==> p == Undefined
  {
    if d in data && EntryTruthy(data[d]) then Element(data[d], i) else Null
  }

  datatype Dataset = Dataset(name: Option<string>, values: seq<Point>)

  datatype ChartData = ChartData(labels: seq<string>, datasets: seq<Dataset>)

  predicate IsBloodPressureChart(title: Option<string>) {
    title == Some(Title(BloodPressure))
  }

  const SystolicLabel := "수축기"
  const DiastolicLabel := "이완기"

  /** One blood-pressure track: element `t` of each label's reading. */
  function BloodPressureTrack(series: Series, dates: seq<string>, t: nat): (values: seq<Point>)
    ensures |values| == |dates|
    ensures forall i :: 0 <= i < |dates| ==> values[i] == BloodPressurePoint(series, dates[i], t)
  {
    seq(|dates|, i requires 0 <= i < |dates| => BloodPressurePoint(series, dates[i], t))
  }

  /** The chart data of a blood-pressure vital: the window without legacy
      keys, a systolic and a diastolic track. */
  function BloodPressureChart(data: Option<Series>): (c: ChartData)
    ensures Ascending(c.labels)
    ensures forall d :: d in c.labels <==> d in Window(data) && !IsLegacyKey(d)
    ensures |c.datasets| == 2
    ensures c.datasets[0].name == Some(SystolicLabel) && c.datasets[1].name == Some(DiastolicLabel)
    ensures c.datasets[0].values == BloodPressureTrack(OrEmpty(data), c.labels, 0)
    ensures c.datasets[1].values == BloodPressureTrack(OrEmpty(data), c.labels, 1)
  {
    var dates := WithoutLegacy(Window(data));
    ChartData(dates, [
      Dataset(Some(SystolicLabel), BloodPressureTrack(OrEmpty(data), dates, 0)),
      Dataset(Some(DiastolicLabel), BloodPressureTrack(OrEmpty(data), dates, 1))])
  }

  /** The chart data of any other vital: the window itself and one track of
      the stored values. */
  function SingleChart(title: Option<string>, data: Option<Series>): (c: ChartData)
    ensures c.labels == Window(data)
    ensures |c.datasets| == 1 && c.datasets[0].name == title
    ensures |c.datasets[0].values| == |c.labels|
    ensures forall i :: 0 <= i < |c.labels| ==>
      c.labels[i] in OrEmpty(data) && c.datasets[0].values[i] == AsPoint(OrEmpty(data)[c.labels[i]])
  {
    var latest := Window(data);
    ChartData(latest, [Dataset(title, StoredTrack(OrEmpty(data), latest))])
  }

  /** `dates.map(date => data[date])` over dates that are all keys. */
  function StoredTrack(series: Series, dates: seq<string>): (values: seq<Point>)
    requires forall d :: d in dates ==> d in series
    ensures |values| == |dates|
    ensures forall i :: 0 <= i < |dates| ==> dates[i] in series && values[i] == AsPoint(series[dates[i]])
  {
    seq(|dates|, i requires 0 <= i < |dates| => ValueAt(series, dates[i]))
  }

  /** The chart data built for a vital titled `title` (by its position) whose
      `data` object is `data`. */
  function Project(title: Option<string>, data: Option<Series>): (c: ChartData)
    ensures |c.datasets| == 2 <==> IsBloodPressureChart(title)
  {
    if IsBloodPressureChart(title) then BloodPressureChart(data) else SingleChart(title, data)
  }

  /** Every chart's labels are ascending and are exactly the keys among the
      five latest, minus the legacy keys for blood pressure only. */
  lemma {:induction false} ProjectLabels(title: Option<string>, data: Option<Series>, d: string)
    ensures Ascending(Project(title, data).labels)
    ensures d in Project(title, data).labels <==>
      && d in OrEmpty(data)
      && |Above(OrEmpty(data).Keys, d)| < WindowSize
      && !(IsBloodPressureChart(title) && IsLegacyKey(d))
  {
    WindowIsLatest(data, d);
  }

  /** When at least five keys sort after "1" (any five dates from year 1000
      on), the legacy keys are outside the window and the blood-pressure chart
      shows all five latest dates. */
  lemma {:induction false} LegacyKeysNeverShown(data: Option<Series>)
    requires |Above(OrEmpty(data).Keys, "1")| >= WindowSize
    ensures BloodPressureChart(data).labels == Window(data)
    ensures |Window(data)| == WindowSize
  {
    var keys := OrEmpty(data).Keys;
    var w := Window(data);
    LegacyKeysOutsideWindow(data);
    assert BloodPressureChart(data).labels == WithoutLegacy(w);
    WithoutLegacyUnchanged(w);
    SubsetCard(Above(keys, "1"), keys);
    WindowIsLatest(data, "");
  }

  lemma {:induction false} WithoutLegacyUnchanged(w: seq<string>)
    requires "0" !in w && "1" !in w
    ensures WithoutLegacy(w) == w
  {
    if w != [] {
      var rest := w[1..];
      assert w == [w[0]] + rest;
      assert !IsLegacyKey(w[0]);
      WithoutLegacyUnchanged(rest);
    }
  }

  lemma {:induction false} LegacyKeysOutsideWindow(data: Option<Series>)
    requires |Above(OrEmpty(data).Keys, "1")| >= WindowSize
    ensures "0" !in Window(data) && "1" !in Window(data)
  {
    var keys := OrEmpty(data).Keys;
    AboveOneAboveZero(keys);
    SubsetCard(Above(keys, "1"), Above(keys, "0"));
    WindowIsLatest(data, "0");
    WindowIsLatest(data, "1");
  }

  lemma {:induction false} AboveOneAboveZero(keys: set<string>)
    ensures Above(keys, "1") <= Above(keys, "0")
  {
    var zero, one := "0", "1";
    assert LexLe(zero, one) && zero != one;
    forall j | j in Above(keys, one)
      ensures j in Above(keys, zero)
    {
      LexLeTransitive(zero, one, j);
    }
  }

  lemma {:induction false} SubsetCard<T>(a: set<T>, b: set<T>)
    requires a <= b
    ensures |a| <= |b|
  {
    assert b == a + (b - a);
  }

  /** Ascending follows from ascending neighbours. */
  lemma {:induction false} AscendingByNeighbours(s: seq<string>)
    requires forall i :: 0 <= i < |s| - 1 ==> LexLt(s[i], s[i + 1])
    ensures Ascending(s)
  {
    if |s| > 1 {
      var init := s[..|s| - 1];
      AscendingByNeighbours(init);
      forall i | 0 <= i < |s| - 1
        ensures LexLt(s[i], s[|s| - 1])
      {
        if i < |s| - 2 {
          assert LexLt(init[i], init[|s| - 2]);
          LexLeTransitive(s[i], s[|s| - 2], s[|s| - 1]);
          LexLeAntisymmetricAll();
        }
      }
    }
  }

  /** A week of daily oxygen readings: the chart shows the last five days,
      oldest first. */
  lemma {:induction false} WeekOfReadings(r: Entry)
    ensures var data := map["2024-01-01" := r, "2024-01-02" := r, "2024-01-03" := r, "2024-01-04" := r,
                            "2024-01-05" := r, "2024-01-06" := r, "2024-01-07" := r];
      Project(ChartTitle(0), Some(data)).labels
        == ["2024-01-03", "2024-01-04", "2024-01-05", "2024-01-06", "2024-01-07"]
  {
    var days := ["2024-01-01", "2024-01-02", "2024-01-03", "2024-01-04", "2024-01-05", "2024-01-06", "2024-01-07"];
    var data := map["2024-01-01" := r, "2024-01-02" := r, "2024-01-03" := r, "2024-01-04" := r,
                    "2024-01-05" := r, "2024-01-06" := r, "2024-01-07" := r];
    DaysAscending(days);
    assert forall k :: k in days <==> k in data.Keys;
    LatestOfSorted(data, days);
    LastFiveDays(days);
  }

  lemma {:induction false} LastFiveDays(days: seq<string>)
    requires days == ["2024-01-01", "2024-01-02", "2024-01-03", "2024-01-04", "2024-01-05", "2024-01-06", "2024-01-07"]
    ensures days[|days| - WindowSize..] == ["2024-01-03", "2024-01-04", "2024-01-05", "2024-01-06", "2024-01-07"]
  {
  }

  /** For a series whose keys are exactly the ascending `days`, a chart
      other than blood pressure is labelled with the last five of them. */
  lemma {:induction false} LatestOfSorted(data: Series, days: seq<string>)
    requires Ascending(days) && |days| >= WindowSize
    requires forall k :: k in days <==> k in data.Keys
    ensures Project(ChartTitle(0), Some(data)).labels == days[|days| - WindowSize..]
  {
    SortedIsOnlyOrder(data.Keys, days);
    WindowOfSorted(Some(data), days);
    OtherChartLabels(ChartTitle(0), Some(data));
  }

  /** An ascending sequence of exactly the keys is their sorted order. */
  lemma {:induction false} SortedIsOnlyOrder(keys: set<string>, days: seq<string>)
    requires Ascending(days)
    requires forall k :: k in days <==> k in keys
    ensures SortedKeys(keys) == days
  {
    AscendingUnique(days, SortedKeys(keys));
  }

  lemma {:induction false} WindowOfSorted(data: Option<Series>, days: seq<string>)
    requires SortedKeys(OrEmpty(data).Keys) == days
    ensures Window(data) == LatestFive(days)
  {
  }

  lemma {:induction false} OtherChartLabels(title: Option<string>, data: Option<Series>)
    requires !IsBloodPressureChart(title)
    ensures Project(title, data).labels == Window(data)
  {
  }

  lemma {:induction false} DaysAscending(days: seq<string>)
    requires days == ["2024-01-01", "2024-01-02", "2024-01-03", "2024-01-04", "2024-01-05", "2024-01-06", "2024-01-07"]
    ensures Ascending(days)
  {
    forall i | 0 <= i < |days| - 1
      ensures LexLt(days[i], days[i + 1])
    {
      SameDateLater("2024-01-0", days[i][9], days[i + 1][9]);
      assert days[i] == "2024-01-0" + [days[i][9]];
      assert days[i + 1] == "2024-01-0" + [days[i + 1][9]];
    }
    AscendingByNeighbours(days);
  }

  /** Two keys that differ only in their last character compare as that
      character does. */
  lemma {:induction false} SameDateLater(prefix: string, c: char, d: char)
    requires c < d
    ensures LexLt(prefix + [c], prefix + [d])
    decreases |prefix|
  {
    if prefix == [] {
      assert ([] + [c])[0] == c;
    } else {
      SameDateLater(prefix[1..], c, d);
      assert (prefix + [c])[1..] == prefix[1..] + [c];
      assert (prefix + [d])[1..] == prefix[1..] + [d];
    }
  }

}
