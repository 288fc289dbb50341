/** The operator builder: a component is a visual-format fragment with the
    views and metrics its symbols stand for, built from a single view or a
    number literal and combined with prefix, postfix and infix operators. */
module VflComponent {
  import opened Symbols
  import opened HostLayout
  import opened MapTables

  /** A fragment of visual format with its two symbol tables. */
  datatype Component = Component(
    format: string,
    viewDict: map<string, View>,
    metricDict: map<string, Number>)

  /** Every symbol of the tables is named in the format and filed under the
      key of its own object. */
  ghost predicate WellFormed(c: Component) {
    Consistent(c.format, c.viewDict, c.metricDict)
  }

  // ---------------------------------------------------------------------
  // Literal constructors
  // ---------------------------------------------------------------------

  /** What the array-literal constructor gives: a component, or the fatal
      error that stops the program naming the offending elements. */
  datatype ArrayLiteral = Built(component: Component) | FatalError(elements: seq<View>)

  /** `[view]`: exactly one view is accepted; any other number of elements is
      fatal and builds nothing. */
  function FromViews(elements: seq<View>): (r: ArrayLiteral)
    ensures r.FatalError? <==> |elements| != 1
    ensures r.FatalError? ==> r.elements == elements
    ensures r.Built? ==>
      var key := Key(elements[0].id);
      && r.component.format == "[" + key + "]"
      && r.component.viewDict == map[key := elements[0]]
      && r.component.metricDict == map[]
      && WellFormed(r.component)
  {
    if |elements| != 1 then
      FatalError(elements)
    else
      var view := elements[0];
      var key := Key(view.id);
      var viewDict := map[key := view];
      ConsistentSingleton("[", key, "]", viewDict, map[]);
      Built(Component("[" + key + "]", viewDict, map[]))
  }

  /** A float literal: the value is boxed (the box's identity is `box`) and
      the format is the box's key alone. */
  function FromFloat(value: real, box: ObjectId): (c: Component)
    ensures c.format == Key(box)
    ensures c.metricDict == map[c.format := Number(box, FloatValue(value))]
    ensures c.viewDict == map[]
    ensures WellFormed(c)
  {
    var number := Number(box, FloatValue(value));
    var key := Key(number.id);
    var metricDict := map[key := number];
    ConsistentSingleton("", key, "", map[], metricDict);
    assert "" + key + "" == key;
    Component(key, map[], metricDict)
  }

  /** An integer literal: like a float literal. The key is computed twice,
      once for the table and once for the format, and both are the same. */
  function FromInteger(value: int, box: ObjectId): (c: Component)
    ensures c.format == Key(box)
    ensures c.metricDict == map[c.format := Number(box, IntValue(value))]
    ensures c.viewDict == map[]
    ensures WellFormed(c)
  {
    var number := Number(box, IntValue(value));
    var key := Key(number.id);
    var metricDict := map[Key(number.id) := number];
    ConsistentSingleton("", key, "", map[], metricDict);
    assert "" + key + "" == key;
    Component(key, map[], metricDict)
  }

  // ---------------------------------------------------------------------
  // Prefix and postfix operators: new text around the format, same tables
  // ---------------------------------------------------------------------

  /** The component with `pre` and `post` written around its format. */
  function Surround(pre: string, x: Component, post: string): (r: Component)
    ensures r.format == pre + x.format + post
    ensures r.viewDict == x.viewDict && r.metricDict == x.metricDict
    ensures WellFormed(x) ==> WellFormed(r)
  {
    ConsistentInContext(pre, x.format, post, x.viewDict, x.metricDict);
    x.(format := pre + x.format + post)
  }

  /** prefix `==`: the relation "equal to" around the format. */
  function PrefixEqual(x: Component): (r: Component)
    ensures r.format == "(==" + x.format + ")"
    ensures r.viewDict == x.viewDict && r.metricDict == x.metricDict
    ensures WellFormed(x) ==> WellFormed(r)
  {
    Surround("(==", x, ")")
  }

  /** prefix `>=`: the relation "at least" around the format. */
  function PrefixAtLeast(x: Component): (r: Component)
    ensures r.format == "(>=" + x.format + ")"
    ensures r.viewDict == x.viewDict && r.metricDict == x.metricDict
    ensures WellFormed(x) ==> WellFormed(r)
  {
    Surround("(>=", x, ")")
  }

  /** prefix `<=`: the relation "at most" around the format. */
  function PrefixAtMost(x: Component): (r: Component)
    ensures r.format == "(<=" + x.format + ")"
    ensures r.viewDict == x.viewDict && r.metricDict == x.metricDict
    ensures WellFormed(x) ==> WellFormed(r)
  {
    Surround("(<=", x, ")")
  }

  /** prefix `|`: the superview's leading edge, flush. */
  function PrefixPipe(x: Component): (r: Component)
    ensures r.format == "|" + x.format
    ensures r.viewDict == x.viewDict && r.metricDict == x.metricDict
    ensures WellFormed(x) ==> WellFormed(r)
  {
    assert "|" + x.format + "" == "|" + x.format;
    Surround("|", x, "")
  }

  /** prefix `|-`: the superview's leading edge, with standard spacing. */
  function PrefixPipeDash(x: Component): (r: Component)
    ensures r.format == "|-" + x.format
    ensures r.viewDict == x.viewDict && r.metricDict == x.metricDict
    ensures WellFormed(x) ==> WellFormed(r)
  {
    assert "|-" + x.format + "" == "|-" + x.format;
    Surround("|-", x, "")
  }

  /** postfix `|`: the superview's trailing edge, flush. */
  function PostfixPipe(x: Component): (r: Component)
    ensures r.format == x.format + "|"
    ensures r.viewDict == x.viewDict && r.metricDict == x.metricDict
    ensures WellFormed(x) ==> WellFormed(r)
  {
    assert "" + x.format + "|" == x.format + "|";
    Surround("", x, "|")
  }

  /** postfix `-|`: the superview's trailing edge, with standard spacing. */
  function PostfixDashPipe(x: Component): (r: Component)
    ensures r.format == x.format + "-|"
    ensures r.viewDict == x.viewDict && r.metricDict == x.metricDict
    ensures WellFormed(x) ==> WellFormed(r)
  {
    assert "" + x.format + "-|" == x.format + "-|";
    Surround("", x, "-|")
  }

  /** The relation prefixes are not idempotent: applying one twice wraps the
      format twice. */
  lemma RelationPrefixesNest(x: Component)
    ensures PrefixEqual(PrefixEqual(x)).format == "(==(==" + x.format + "))"
    ensures PrefixAtLeast(PrefixAtLeast(x)).format == "(>=(>=" + x.format + "))"
    ensures PrefixAtMost(PrefixAtMost(x)).format == "(<=(<=" + x.format + "))"
    ensures PrefixEqual(PrefixEqual(x)) != PrefixEqual(x)
  {
    assert |PrefixEqual(PrefixEqual(x)).format| == |PrefixEqual(x).format| + 4;
  }

  // ---------------------------------------------------------------------
  // Infix `-`
  // ---------------------------------------------------------------------

  /** What `lhs - rhs` denotes: the formats joined by a dash and each pair of
      tables united, the right operand's entry winning on a shared key. */
  function Concatenated(lhs: Component, rhs: Component): (r: Component)
    ensures r.format == lhs.format + "-" + rhs.format
    ensures r.viewDict.Keys == lhs.viewDict.Keys + rhs.viewDict.Keys
    ensures forall k :: k in rhs.viewDict ==> r.viewDict[k] == rhs.viewDict[k]
    ensures forall k :: k in lhs.viewDict && k !in rhs.viewDict ==> r.viewDict[k] == lhs.viewDict[k]
    ensures r.metricDict.Keys == lhs.metricDict.Keys + rhs.metricDict.Keys
    ensures forall k :: k in rhs.metricDict ==> r.metricDict[k] == rhs.metricDict[k]
    ensures forall k :: k in lhs.metricDict && k !in rhs.metricDict ==> r.metricDict[k] == lhs.metricDict[k]
    ensures WellFormed(lhs) && WellFormed(rhs) ==> WellFormed(r)
  {
    ConsistentJoin(lhs.format, lhs.viewDict, lhs.metricDict, "-", rhs.format, rhs.viewDict, rhs.metricDict);
    Component(lhs.format + "-" + rhs.format, lhs.viewDict + rhs.viewDict, lhs.metricDict + rhs.metricDict)
  }

  /** infix `-`: copies `lhs`, joins the formats with a dash, then writes
      every entry of each of `rhs`'s tables into the copy, in the tables'
      (unspecified) iteration order. */
  method Dash(lhs: Component, rhs: Component) returns (result: Component)
    ensures result == Concatenated(lhs, rhs)
  {
    result := lhs;
    result := result.(format := lhs.format + "-" + rhs.format);
    var viewDict := WriteEntries(result.viewDict, rhs.viewDict);
    result := result.(viewDict := viewDict);
    var metricDict := WriteEntries(result.metricDict, rhs.metricDict);
    result := result.(metricDict := metricDict);
  }

  /** `(a - b) - c` and `a - (b - c)` denote the same component. */
  lemma DashAssociative(a: Component, b: Component, c: Component)
    ensures Concatenated(Concatenated(a, b), c) == Concatenated(a, Concatenated(b, c))
  {
    assert (a.format + "-" + b.format) + "-" + c.format == a.format + "-" + (b.format + "-" + c.format);
    assert (a.viewDict + b.viewDict) + c.viewDict == a.viewDict + (b.viewDict + c.viewDict);
    assert (a.metricDict + b.metricDict) + c.metricDict == a.metricDict + (b.metricDict + c.metricDict);
  }

  /** Since keys come from identities, the "right operand wins" rule never
      changes a view table: on well-formed operands `-` unites the view
      tables the same way in either order. */
  lemma DashViewsCommute(a: Component, b: Component)
    requires WellFormed(a) && WellFormed(b)
    ensures Concatenated(a, b).viewDict == Concatenated(b, a).viewDict
  {
    ViewTablesAgree(a.format, a.viewDict, a.metricDict, b.format, b.viewDict, b.metricDict);
  }

  // ---------------------------------------------------------------------
  // Materialisation
  // ---------------------------------------------------------------------

  /** `H:` constraints: the host parser gets the format after `H:`, the
      options as given and the component's own tables. */
  function HorizontalConstraints(h: Component, options: FormatOptions): (call: ParserCall)
    ensures call.visualFormat == "H:" + h.format && call.options == options
    ensures call.metrics == h.metricDict && call.views == h.viewDict
    ensures WellFormed(h) ==> Consistent(call.visualFormat, call.views, call.metrics)
  {
    ConsistentInContext("H:", h.format, "", h.viewDict, h.metricDict);
    assert "H:" + h.format + "" == "H:" + h.format;
    ParserCall("H:" + h.format, options, h.metricDict, h.viewDict)
  }

  /** `V:` constraints: as `H:`, with the vertical orientation tag. */
  function VerticalConstraints(v: Component, options: FormatOptions): (call: ParserCall)
    ensures call.visualFormat == "V:" + v.format && call.options == options
    ensures call.metrics == v.metricDict && call.views == v.viewDict
    ensures WellFormed(v) ==> Consistent(call.visualFormat, call.views, call.metrics)
  {
    ConsistentInContext("V:", v.format, "", v.viewDict, v.metricDict);
    assert "V:" + v.format + "" == "V:" + v.format;
    ParserCall("V:" + v.format, options, v.metricDict, v.viewDict)
  }

  /** A component built from one view resolves that view back: the parser
      call names the view's key in its format and maps it to the view. */
  lemma SingleViewRoundTrip(view: View, options: FormatOptions)
    ensures FromViews([view]).Built?
    ensures var call := HorizontalConstraints(FromViews([view]).component, options);
      && call.visualFormat == "H:[" + Key(view.id) + "]"
      && call.views == map[Key(view.id) := view]
      && OccursIn(Key(view.id), call.visualFormat)
  {
    var call := HorizontalConstraints(FromViews([view]).component, options);
    assert Key(view.id) in call.views;
    assert "H:" + ("[" + Key(view.id) + "]") == "H:[" + Key(view.id) + "]";
  }
}
