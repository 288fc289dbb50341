/** Worked layouts that tie the two front ends together. */
module Scenarios {
  import opened Symbols
  import opened VflComponent
  import opened VisualFormat
  import opened HostLayout

  /** The fragments of the interpolated string `"\(lead)\(view)]-\(number)-|"`,
      where `lead` is the literal text before the view: `|-[`, or `H:|-[`
      with the orientation written into the string. */
  function EdgeToEdgeFragments(lead: string, view: View, number: Number): seq<VisualFormatLanguage> {
    [FromSegment(TextSegment(lead)),
     FromSegment(ViewSegment(view)),
     FromSegment(TextSegment("]-")),
     FromSegment(NumberSegment(number)),
     FromSegment(TextSegment("-|"))]
  }

  /** The builder of `"|-[\(view)]-\(number)-|"`, or of the same string after
      any other leading text: both symbols in place, one entry in each table,
      one view counted. */
  lemma EdgeToEdgeMerged(lead: string, view: View, number: Number)
    ensures var vfl := Interpolation(EdgeToEdgeFragments(lead, view, number));
      && vfl.format == lead + Key(view.id) + "]-" + Key(number.id) + "-|"
      && vfl.views == map[Key(view.id) := view]
      && vfl.metrics == map[Key(number.id) := number]
      && vfl.viewCount == 1
      && IsLive(vfl)
  {
    var strings := EdgeToEdgeFragments(lead, view, number);
    var kv, kn := Key(view.id), Key(number.id);
    var views: map<string, View> := map[kv := view];
    var metrics: map<string, Number> := map[kn := number];
    var s0: seq<VisualFormatLanguage> := [];
    MergedSnoc(s0, strings[0]);
    assert s0 + [strings[0]] == strings[..1];
    MergedSnoc(strings[..1], strings[1]);
    assert strings[..1] + [strings[1]] == strings[..2];
    assert MergedFormat(strings[..2]) == lead + kv;
    assert MergedViews(strings[..2]) == views;
    MergedSnoc(strings[..2], strings[2]);
    assert strings[..2] + [strings[2]] == strings[..3];
    MergedSnoc(strings[..3], strings[3]);
    assert strings[..3] + [strings[3]] == strings[..4];
    assert MergedFormat(strings[..4]) == lead + kv + "]-" + kn;
    assert MergedViews(strings[..4]) == views;
    assert MergedMetrics(strings[..4]) == metrics;
    MergedSnoc(strings[..4], strings[4]);
    assert strings[..4] + [strings[4]] == strings;
    MergedCountIsSize(strings);
  }

  /** Regrouping the text of `|-[view] - number-|` as the operators build it. */
  lemma EdgeToEdgeText(kv: string, kn: string)
    ensures ("|-" + ("[" + kv + "]")) + "-" + (kn + "-|") == "|-[" + kv + "]-" + kn + "-|"
  {
  }

  /** The `H:` tag in front of the operators' text is the interpolated
      string's own leading text. */
  lemma HorizontalText(kv: string, kn: string)
    ensures "H:" + ("|-[" + kv + "]-" + kn + "-|") == "H:|-[" + kv + "]-" + kn + "-|"
  {
    assert "H:|-[" == "H:" + "|-[";
  }

  /** `|-[view] - number-|` written with operators: both symbols in place,
      one entry in each table. */
  lemma EdgeToEdgeOperators(view: View, box: ObjectId, value: int)
    ensures FromViews([view]).Built?
    ensures Concatenated(PrefixPipeDash(FromViews([view]).component), PostfixDashPipe(FromInteger(value, box)))
         == Component("|-[" + Key(view.id) + "]-" + Key(box) + "-|",
                      map[Key(view.id) := view], map[Key(box) := Number(box, IntValue(value))])
  {
    var kv, kn := Key(view.id), Key(box);
    var lhs := PrefixPipeDash(FromViews([view]).component);
    var rhs := PostfixDashPipe(FromInteger(value, box));
    assert lhs == Component("|-" + ("[" + kv + "]"), map[kv := view], map[]);
    assert rhs == Component(kn + "-|", map[], map[kn := Number(box, IntValue(value))]);
    EdgeToEdgeText(kv, kn);
    assert map[kv := view] + map[] == map[kv := view];
    assert map[] + map[kn := Number(box, IntValue(value))] == map[kn := Number(box, IntValue(value))];
  }

  /** `H:|-[view] - number-|` written with operators and
      `"H:|-[\(view)]-\(number)-|"` written as an interpolated string hand the
      host parser the same call: the same format, options and tables. The
      interpolated string must carry `H:` itself, since its builder adds no
      orientation tag. The number is boxed once on each path; the layouts
      agree when both boxes have the same identity `box`, as stated here. */
  lemma FrontEndsAgree(view: View, box: ObjectId, value: int, options: FormatOptions)
    ensures FromViews([view]).Built?
    ensures var c := Concatenated(PrefixPipeDash(FromViews([view]).component), PostfixDashPipe(FromInteger(value, box)));
      var vfl := Interpolation(EdgeToEdgeFragments("H:|-[", view, Number(box, IntValue(value))));
      && IsLive(vfl)
      && HorizontalConstraints(c, options) == ParserCall(vfl.format, options, vfl.metrics, vfl.views)
  {
    var kv, kn := Key(view.id), Key(box);
    var number := Number(box, IntValue(value));
    var c := Concatenated(PrefixPipeDash(FromViews([view]).component), PostfixDashPipe(FromInteger(value, box)));
    var vfl := Interpolation(EdgeToEdgeFragments("H:|-[", view, number));
    EdgeToEdgeMerged("H:|-[", view, number);
    EdgeToEdgeOperators(view, box, value);
    var call := HorizontalConstraints(c, options);
    assert call.visualFormat == "H:" + ("|-[" + kv + "]-" + kn + "-|");
    HorizontalText(kv, kn);
    assert call.visualFormat == vfl.format;
    assert call.views == vfl.views && call.metrics == vfl.metrics;
  }

  /** The same view interpolated twice is entered and counted once. */
  lemma RepeatedViewCountedOnce(view: View)
    ensures var vfl := Interpolation([FromSegment(ViewSegment(view)), FromSegment(TextSegment("-")), FromSegment(ViewSegment(view))]);
      && vfl.format == Key(view.id) + "-" + Key(view.id)
      && vfl.views == map[Key(view.id) := view]
      && vfl.viewCount == 1
  {
    var strings := [FromSegment(ViewSegment(view)), FromSegment(TextSegment("-")), FromSegment(ViewSegment(view))];
    var kv := Key(view.id);
    var s0: seq<VisualFormatLanguage> := [];
    MergedSnoc(s0, strings[0]);
    assert s0 + [strings[0]] == strings[..1];
    MergedSnoc(strings[..1], strings[1]);
    assert strings[..1] + [strings[1]] == strings[..2];
    assert MergedViews(strings[..2]) == map[kv := view];
    MergedSnoc(strings[..2], strings[2]);
    assert strings[..2] + [strings[2]] == strings;
    MergedCountIsSize(strings);
  }

  /** After the view of `"|-[\(view)]-\(number)-|"` is deallocated, the
      builder fails its guard, so it yields no constraints. */
  lemma DeallocatedViewRefused(view: View, number: Number)
    ensures !IsLive(Deallocate(Interpolation(EdgeToEdgeFragments("|-[", view, number)), view))
  {
    var vfl := Interpolation(EdgeToEdgeFragments("|-[", view, number));
    EdgeToEdgeMerged("|-[", view, number);
    assert vfl.views[Key(view.id)] == view;
    DeallocationBreaksLiveness(vfl, view);
  }
}
