/** The interpolated-string builder: each segment of an interpolated string
    becomes a fragment, the fragments are merged left to right into one
    format and two symbol tables, and the count of views kept at merge time
    guards materialisation against views deallocated since. */
module VisualFormat {
  import opened Symbols
  import opened HostLayout
  import opened MapTables

  /** One interpolation segment, classified by its runtime type: a view, a
      number, or anything else, which contributes its textual description. */
  datatype Segment =
    | ViewSegment(view: View)
    | NumberSegment(number: Number)
    | TextSegment(description: string)

  /** The builder value. `views` holds only the live entries of the weakly
      referencing view table; `viewCount` is the number of view entries the
      merge inserted. */
  datatype VisualFormatLanguage = VisualFormatLanguage(
    format: string,
    metrics: map<string, Number>,
    views: map<string, View>,
    viewCount: int)

  ghost predicate WellFormed(vfl: VisualFormatLanguage) {
    Consistent(vfl.format, vfl.views, vfl.metrics)
  }

  // ---------------------------------------------------------------------
  // One segment
  // ---------------------------------------------------------------------

  /** A view or a number contributes its key to the format and one entry to
      its own table; anything else contributes its text and no entry. The
      segment's own view count stays zero. */
  function FromSegment(expr: Segment): (r: VisualFormatLanguage)
    ensures r.viewCount == 0
    ensures expr.ViewSegment? ==>
      r.format == Key(expr.view.id) && r.views == map[r.format := expr.view] && r.metrics == map[]
    ensures expr.NumberSegment? ==>
      r.format == Key(expr.number.id) && r.metrics == map[r.format := expr.number] && r.views == map[]
    ensures expr.TextSegment? ==>
      r.format == expr.description && r.views == map[] && r.metrics == map[]
  {
    match expr
    case ViewSegment(view) =>
      VisualFormatLanguage(Key(view.id), map[], map[Key(view.id) := view], 0)
    case NumberSegment(number) =>
      VisualFormatLanguage(Key(number.id), map[Key(number.id) := number], map[], 0)
    case TextSegment(description) =>
      VisualFormatLanguage(description, map[], map[], 0)
  }

  /** Every fragment a segment gives is well formed: its one symbol, if any,
      is its whole format. */
  lemma SegmentWellFormed(expr: Segment)
    ensures WellFormed(FromSegment(expr))
  {
    var r := FromSegment(expr);
    if !expr.TextSegment? {
      ConsistentSingleton("", r.format, "", r.views, r.metrics);
      assert "" + r.format + "" == r.format;
    }
  }

  // ---------------------------------------------------------------------
  // The merge, as a specification
  // ---------------------------------------------------------------------

  /** The format merged from `strings`: each fragment's format appended in
      turn. */
  function MergedFormat(strings: seq<VisualFormatLanguage>): string
    decreases |strings|
  {
    if strings == [] then ""
    else MergedFormat(strings[..|strings| - 1]) + strings[|strings| - 1].format
  }

  /** The metric table merged from `strings`: each fragment's entries
      overwrite. */
  function MergedMetrics(strings: seq<VisualFormatLanguage>): map<string, Number>
    decreases |strings|
  {
    if strings == [] then map[]
    else MergedMetrics(strings[..|strings| - 1]) + strings[|strings| - 1].metrics
  }

  /** The view table merged from `strings`: a fragment's entries are inserted
      only under keys not yet present. */
  function MergedViews(strings: seq<VisualFormatLanguage>): map<string, View>
    decreases |strings|
  {
    if strings == [] then map[]
    else strings[|strings| - 1].views + MergedViews(strings[..|strings| - 1])
  }

  /** The view count after merging `strings`: one per first insertion. */
  function MergedCount(strings: seq<VisualFormatLanguage>): int
    decreases |strings|
  {
    if strings == [] then 0
    else
      var init := strings[..|strings| - 1];
      MergedCount(init) + |strings[|strings| - 1].views.Keys - MergedViews(init).Keys|
  }

  /** The builder made from `strings`, merged left to right. */
  function Interpolation(strings: seq<VisualFormatLanguage>): VisualFormatLanguage {
    VisualFormatLanguage(MergedFormat(strings), MergedMetrics(strings), MergedViews(strings), MergedCount(strings))
  }

  /** The formats of `strings`, joined in order. */
  function ConcatFormats(strings: seq<VisualFormatLanguage>): string
    decreases |strings|
  {
    if strings == [] then "" else strings[0].format + ConcatFormats(strings[1..])
  }

  /** Every key some fragment of `strings` has in its view table. */
  ghost function ViewKeys(strings: seq<VisualFormatLanguage>): set<string> {
    set i, k | 0 <= i < |strings| && k in strings[i].views :: k
  }

  /** Every key some fragment of `strings` has in its metric table. */
  ghost function MetricKeys(strings: seq<VisualFormatLanguage>): set<string> {
    set i, k | 0 <= i < |strings| && k in strings[i].metrics :: k
  }

  // ---------------------------------------------------------------------
  // The merge, as `init(stringInterpolation:)` performs it
  // ---------------------------------------------------------------------

  /** The builder of an interpolated string: for each fragment in turn,
      appends its format, copies its metrics in and inserts its new views. */
  method FromInterpolation(strings: seq<VisualFormatLanguage>) returns (r: VisualFormatLanguage)
    ensures r == Interpolation(strings)
  {
    var format := "";
    var metrics: map<string, Number> := map[];
    var views: map<string, View> := map[];
    var viewCount := 0;
    for n := 0 to |strings|
      invariant format == MergedFormat(strings[..n])
      invariant metrics == MergedMetrics(strings[..n])
      invariant views == MergedViews(strings[..n])
      invariant viewCount == MergedCount(strings[..n])
    {
      assert strings[..n] + [strings[n]] == strings[..n + 1];
      MergedSnoc(strings[..n], strings[n]);
      MergedCountPrefix(strings, n);
      var vfl := strings[n];
      format := format + vfl.format;
      metrics := WriteEntries(metrics, vfl.metrics);
      views, viewCount := InsertNewViews(views, viewCount, vfl.views);
    }
    assert strings[..|strings|] == strings;
    r := VisualFormatLanguage(format, metrics, views, viewCount);
  }

  /** Merging one fragment more appends its format, lets its metrics
      overwrite and keeps the views already present. */
  lemma MergedSnoc(init: seq<VisualFormatLanguage>, last: VisualFormatLanguage)
    ensures MergedFormat(init + [last]) == MergedFormat(init) + last.format
    ensures MergedMetrics(init + [last]) == MergedMetrics(init) + last.metrics
    ensures MergedViews(init + [last]) == last.views + MergedViews(init)
  {
    assert (init + [last])[..|init|] == init;
  }

  /** Merging one fragment more counts its view keys not yet present. */
  lemma MergedCountPrefix(strings: seq<VisualFormatLanguage>, n: nat)
    requires n < |strings|
    ensures MergedCount(strings[..n + 1]) ==
      MergedCount(strings[..n]) + |strings[n].views.Keys - MergedViews(strings[..n]).Keys|
  {
    assert strings[..n + 1][..n] == strings[..n];
  }

  /** The merged format is the in-order concatenation of the fragments'
      formats. */
  lemma {:induction false} InterpolationFormat(strings: seq<VisualFormatLanguage>)
    ensures Interpolation(strings).format == ConcatFormats(strings)
    decreases |strings|
  {
    if strings != [] {
      var n := |strings|;
      InterpolationFormat(strings[..n - 1]);
      ConcatFormatsSnoc(strings[..n - 1], strings[n - 1]);
      assert strings[..n - 1] + [strings[n - 1]] == strings;
    }
  }

  lemma {:induction false} ConcatFormatsSnoc(strings: seq<VisualFormatLanguage>, last: VisualFormatLanguage)
    ensures ConcatFormats(strings + [last]) == ConcatFormats(strings) + last.format
    decreases |strings|
  {
    if strings == [] {
      assert [] + [last] == [last];
      assert ConcatFormats([last]) == last.format + ConcatFormats([]);
    } else {
      assert (strings + [last])[1..] == strings[1..] + [last];
      ConcatFormatsSnoc(strings[1..], last);
    }
  }

  lemma ViewKeysSnoc(strings: seq<VisualFormatLanguage>)
    requires strings != []
    ensures ViewKeys(strings) == ViewKeys(strings[..|strings| - 1]) + strings[|strings| - 1].views.Keys
    ensures MetricKeys(strings) == MetricKeys(strings[..|strings| - 1]) + strings[|strings| - 1].metrics.Keys
  {
    var n := |strings|;
    var init := strings[..n - 1];
    forall k | k in ViewKeys(strings)
      ensures k in ViewKeys(init) + strings[n - 1].views.Keys
    {
      var i :| 0 <= i < n && k in strings[i].views;
      if i < n - 1 {
        assert init[i] == strings[i];
      }
    }
    forall k | k in ViewKeys(init)
      ensures k in ViewKeys(strings)
    {
      var i :| 0 <= i < n - 1 && k in init[i].views;
      assert strings[i] == init[i];
    }
    forall k | k in MetricKeys(strings)
      ensures k in MetricKeys(init) + strings[n - 1].metrics.Keys
    {
      var i :| 0 <= i < n && k in strings[i].metrics;
      if i < n - 1 {
        assert init[i] == strings[i];
      }
    }
    forall k | k in MetricKeys(init)
      ensures k in MetricKeys(strings)
    {
      var i :| 0 <= i < n - 1 && k in init[i].metrics;
      assert strings[i] == init[i];
    }
  }

  /** The merged tables hold exactly the keys of all fragments' tables, and
      the view count is the number of distinct view keys, which is also the
      size of the merged view table. */
  lemma InterpolationKeys(strings: seq<VisualFormatLanguage>)
    ensures Interpolation(strings).views.Keys == ViewKeys(strings)
    ensures Interpolation(strings).metrics.Keys == MetricKeys(strings)
    ensures Interpolation(strings).viewCount == |ViewKeys(strings)| == |Interpolation(strings).views|
  {
    MergedKeys(strings);
    MergedCountIsSize(strings);
  }

  lemma {:induction false} MergedKeys(strings: seq<VisualFormatLanguage>)
    ensures MergedViews(strings).Keys == ViewKeys(strings)
    ensures MergedMetrics(strings).Keys == MetricKeys(strings)
    decreases |strings|
  {
    if strings != [] {
      MergedKeys(strings[..|strings| - 1]);
      ViewKeysSnoc(strings);
    } else {
      assert ViewKeys(strings) == {};
      assert MetricKeys(strings) == {};
    }
  }

  lemma {:induction false} MergedCountIsSize(strings: seq<VisualFormatLanguage>)
    ensures MergedCount(strings) == |MergedViews(strings)|
    decreases |strings|
  {
    if strings != [] {
      var init := strings[..|strings| - 1];
      MergedCountIsSize(init);
      NewKeysCount(strings[|strings| - 1].views, MergedViews(init));
    }
  }

  /** A merged view entry is the first fragment's entry under that key: a
      later fragment never replaces it. */
  lemma {:induction false} MergedViewFirstWins(strings: seq<VisualFormatLanguage>, i: nat, k: string)
    requires i < |strings| && k in strings[i].views
    requires forall j :: 0 <= j < i ==> k !in strings[j].views
    ensures k in MergedViews(strings)
    ensures MergedViews(strings)[k] == strings[i].views[k]
    decreases |strings|
  {
    var n := |strings|;
    var init := strings[..n - 1];
    if i == n - 1 {
      MergedKeys(init);
      forall j | 0 <= j < |init| ensures k !in init[j].views {
        assert init[j] == strings[j];
      }
      assert k !in MergedViews(init);
    } else {
      assert init[i] == strings[i];
      forall j | 0 <= j < i ensures k !in init[j].views {
        assert init[j] == strings[j];
      }
      MergedViewFirstWins(init, i, k);
    }
  }

  /** A merged metric entry is the last fragment's entry under that key: a
      later fragment always overwrites. */
  lemma {:induction false} MergedMetricLastWins(strings: seq<VisualFormatLanguage>, i: nat, k: string)
    requires i < |strings| && k in strings[i].metrics
    requires forall j :: i < j < |strings| ==> k !in strings[j].metrics
    ensures k in MergedMetrics(strings)
    ensures MergedMetrics(strings)[k] == strings[i].metrics[k]
    decreases |strings|
  {
    var n := |strings|;
    var init := strings[..n - 1];
    if i < n - 1 {
      assert init[i] == strings[i];
      forall j | i < j < n - 1 ensures k !in init[j].metrics {
        assert init[j] == strings[j];
      }
      MergedMetricLastWins(init, i, k);
    }
  }

  /** Merging well-formed fragments gives a well-formed builder: every key in
      the merged tables is named in the merged format. */
  lemma InterpolationWellFormed(strings: seq<VisualFormatLanguage>)
    requires forall i :: 0 <= i < |strings| ==> WellFormed(strings[i])
    ensures WellFormed(Interpolation(strings))
  {
    MergedConsistent(strings);
  }

  lemma {:induction false} MergedConsistent(strings: seq<VisualFormatLanguage>)
    requires forall i :: 0 <= i < |strings| ==> WellFormed(strings[i])
    ensures Consistent(MergedFormat(strings), MergedViews(strings), MergedMetrics(strings))
    decreases |strings|
  {
    if strings != [] {
      MergedConsistent(strings[..|strings| - 1]);
      MergeStepConsistent(strings);
    }
  }

  lemma MergeStepConsistent(strings: seq<VisualFormatLanguage>)
    requires strings != []
    requires var init := strings[..|strings| - 1];
      Consistent(MergedFormat(init), MergedViews(init), MergedMetrics(init))
    requires WellFormed(strings[|strings| - 1])
    ensures Consistent(MergedFormat(strings), MergedViews(strings), MergedMetrics(strings))
  {
    var init := strings[..|strings| - 1];
    var last := strings[|strings| - 1];
    ConsistentAppend(MergedFormat(init), MergedViews(init), MergedMetrics(init),
                     last.format, last.views, last.metrics);
  }

  /** The fragments of an interpolated string, one per segment. */
  function Fragments(segments: seq<Segment>): (strings: seq<VisualFormatLanguage>)
    ensures |strings| == |segments|
    ensures forall i :: 0 <= i < |segments| ==> strings[i] == FromSegment(segments[i])
  {
    seq(|segments|, i requires 0 <= i < |segments| => FromSegment(segments[i]))
  }

  /** The builder of any interpolated string is well formed. */
  lemma InterpolatedStringWellFormed(segments: seq<Segment>)
    ensures WellFormed(Interpolation(Fragments(segments)))
  {
    var strings := Fragments(segments);
    forall i | 0 <= i < |strings|
      ensures WellFormed(strings[i])
    {
      SegmentWellFormed(segments[i]);
    }
    InterpolationWellFormed(strings);
  }

  /** A freshly merged builder always passes the materialisation guard. */
  lemma InterpolationIsLive(strings: seq<VisualFormatLanguage>)
    ensures IsLive(Interpolation(strings))
  {
    InterpolationKeys(strings);
  }

  // ---------------------------------------------------------------------
  // Deallocation and materialisation
  // ---------------------------------------------------------------------

  /** The guard: as many live view entries as the merge inserted. A builder
      that passes it holds views exactly when it counted some. */
  function IsLive(vfl: VisualFormatLanguage): (live: bool)
    ensures live <==> |vfl.views| == vfl.viewCount
    ensures live ==> (vfl.views == map[] <==> vfl.viewCount == 0)
  {
    |vfl.views| == vfl.viewCount
  }

  /** `view` is deallocated: the weak table loses every entry holding it;
      nothing else changes. */
  function Deallocate(vfl: VisualFormatLanguage, view: View): (r: VisualFormatLanguage)
    ensures r.format == vfl.format && r.metrics == vfl.metrics && r.viewCount == vfl.viewCount
    ensures r.views.Keys <= vfl.views.Keys
    ensures forall k :: k in vfl.views ==> (k in r.views <==> vfl.views[k] != view)
    ensures forall k :: k in r.views ==> r.views[k] == vfl.views[k]
  {
    vfl.(views := map k | k in vfl.views && vfl.views[k] != view :: vfl.views[k])
  }

  /** Once a view the builder holds is deallocated, the guard fails. */
  lemma DeallocationBreaksLiveness(vfl: VisualFormatLanguage, view: View)
    requires IsLive(vfl)
    requires view in vfl.views.Values
    ensures !IsLive(Deallocate(vfl, view))
  {
    var r := Deallocate(vfl, view);
    var k :| k in vfl.views && vfl.views[k] == view;
    assert r.views.Keys <= vfl.views.Keys - {k};
    SubsetCardinality(r.views.Keys, vfl.views.Keys - {k});
  }

  lemma {:induction false} SubsetCardinality(a: set<string>, b: set<string>)
    requires a <= b
    ensures |a| <= |b|
    decreases |b|
  {
    if a != {} {
      var x :| x in a;
      SubsetCardinality(a - {x}, b - {x});
    }
  }

  /** What materialisation gives: no constraints, or the host parser's result
      for one call. */
  datatype Materialisation = Refused | Delegated(call: ParserCall)

  /** Constraints with options: refused, without reaching the parser, when
      the live view entries do not number `viewCount`; otherwise the parser
      gets the format as written and copies of both tables. */
  method Constraints(vfl: VisualFormatLanguage, options: FormatOptions) returns (r: Materialisation)
    ensures r.Refused? <==> !IsLive(vfl)
    ensures r.Delegated? ==> r.call == ParserCall(vfl.format, options, vfl.metrics, vfl.views)
  {
    if !IsLive(vfl) {
      return Refused;
    }
    var metrics := VflDictionary(vfl.metrics);
    var views := VflDictionary(vfl.views);
    r := Delegated(ParserCall(vfl.format, options, metrics, views));
  }
}
