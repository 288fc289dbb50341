/** Object identities, the symbol keys both front ends derive from them, and
    what it means for a visual-format string to name every entry of its
    symbol tables. */
module Symbols {

  /** The identity of a live object (a view or a boxed number). The library
      derives it from the object's address; here it is an abstract number. */
  type ObjectId = nat

  /** A view, which the layout code only ever distinguishes by identity. */
  datatype View = View(id: ObjectId)

  /** What a boxed number holds: the operator builder boxes a Double or an Int. */
  datatype NumberValue = FloatValue(d: real) | IntValue(i: int)

  /** A boxed number: an object with an identity of its own. */
  datatype Number = Number(id: ObjectId, value: NumberValue)

  // ---------------------------------------------------------------------
  // Decimal digits
  // ---------------------------------------------------------------------

  predicate IsDigit(c: char) {
    '0' <= c <= '9'
  }

  predicate AllDigits(s: string) {
    forall i :: 0 <= i < |s| ==> IsDigit(s[i])
  }

  function DigitValue(c: char): nat
    requires IsDigit(c)
  {
    c as int - '0' as int
  }

  function DigitChar(d: nat): (c: char)
    requires d < 10
    ensures IsDigit(c) && DigitValue(c) == d
  {
    (d + '0' as int) as char
  }

  /** The decimal text of `n` as an unsigned integer is printed: digits only,
      and a leading zero only for zero itself. */
  function Digits(n: nat): (s: string)
    ensures |s| >= 1 && AllDigits(s)
    ensures s[0] == '0' <==> n == 0
    decreases n
  {
    if n < 10 then [DigitChar(n)] else Digits(n / 10) + [DigitChar(n % 10)]
  }

  /** Reads a string of decimal digits back as a number. */
  function ValueOf(s: string): nat
    requires AllDigits(s)
    decreases |s|
  {
    if s == [] then 0 else ValueOf(s[..|s| - 1]) * 10 + DigitValue(s[|s| - 1])
  }

  lemma {:induction false} ValueOfDigits(n: nat)
    ensures ValueOf(Digits(n)) == n
    decreases n
  {
    var s := Digits(n);
    if n < 10 {
      assert s[..|s| - 1] == [];
    } else {
      assert s[..|s| - 1] == Digits(n / 10);
      ValueOfDigits(n / 10);
    }
  }

  // ---------------------------------------------------------------------
  // Symbol keys
  // ---------------------------------------------------------------------

  /** Characters the visual format language gives a meaning to. */
  const GrammarChars: string := "[]()-|:=<>@,"

  /** The shape of a symbol key: `A`, decimal digits, `B`. */
  predicate IsKey(k: string) {
    |k| >= 3 && k[0] == 'A' && k[|k| - 1] == 'B' && AllDigits(k[1..|k| - 1])
  }

  /** The key of an object: `A<n>B` with `n` the object's identity in decimal. */
  function Key(id: ObjectId): (k: string)
    ensures |k| >= 3 && k[0] == 'A' && k[|k| - 1] == 'B'
  {
    var k := "A" + Digits(id) + "B";
    assert k[1..|k| - 1] == Digits(id);
    k
  }

  /** Every key has the `A<digits>B` shape and never contains a character
      that the grammar treats specially. */
  lemma KeyShape(id: ObjectId)
    ensures IsKey(Key(id))
    ensures forall i :: 0 <= i < |Key(id)| ==> Key(id)[i] !in GrammarChars
  {
    var digits := Digits(id);
    var k := Key(id);
    assert k[1..|k| - 1] == digits;
    assert forall i :: 1 <= i < |k| - 1 ==> k[i] == digits[i - 1];
  }

  /** Reads the identity back out of a key. */
  function KeyId(k: string): ObjectId
    requires IsKey(k)
  {
    ValueOf(k[1..|k| - 1])
  }

  lemma KeyRoundTrip(id: ObjectId)
    ensures KeyId(Key(id)) == id
  {
    var k := Key(id);
    KeyShape(id);
    assert k[1..|k| - 1] == Digits(id);
    ValueOfDigits(id);
  }

  /** One object, one key; distinct objects, distinct keys. */
  lemma KeyInjective(a: ObjectId, b: ObjectId)
    ensures Key(a) == Key(b) <==> a == b
  {
    if Key(a) == Key(b) {
      KeyRoundTrip(a);
      KeyRoundTrip(b);
    }
  }

  // ---------------------------------------------------------------------
  // Keys named in a format string
  // ---------------------------------------------------------------------

  ghost predicate OccursAt(k: string, s: string, i: int) {
    0 <= i <= |s| - |k| && s[i..i + |k|] == k
  }

  /** `k` is a substring of `s`. */
  ghost predicate OccursIn(k: string, s: string) {
    exists i :: OccursAt(k, s, i)
  }

  lemma OccursInWhole(k: string)
    ensures OccursIn(k, k)
  {
    assert OccursAt(k, k, 0);
  }

  /** Text added around a string keeps every substring of it. */
  lemma OccursInContext(k: string, pre: string, s: string, post: string)
    requires OccursIn(k, s)
    ensures OccursIn(k, pre + s + post)
  {
    var i :| OccursAt(k, s, i);
    var t := pre + s + post;
    assert t[|pre| + i..|pre| + i + |k|] == s[i..i + |k|];
    assert OccursAt(k, t, |pre| + i);
  }

  /** Every key of `keys` is a substring of `format`. */
  ghost predicate AllNamedIn(keys: set<string>, format: string) {
    forall k :: k in keys ==> OccursIn(k, format)
  }

  /** Every entry is filed under its own object's key. */
  predicate ViewsKeyed(views: map<string, View>) {
    forall k :: k in views ==> k == Key(views[k].id)
  }

  predicate MetricsKeyed(metrics: map<string, Number>) {
    forall k :: k in metrics ==> k == Key(metrics[k].id)
  }

  /** The invariant both front ends keep: every symbol in either table is
      named in the format, and every entry is filed under its own object's key
      (so the host parser can resolve each symbol back to its object). */
  ghost predicate Consistent(format: string, views: map<string, View>, metrics: map<string, Number>) {
    AllNamedIn(views.Keys + metrics.Keys, format) && ViewsKeyed(views) && MetricsKeyed(metrics)
  }

  /** A single symbol, alone or in context, with its one table entry. */
  lemma ConsistentSingleton(pre: string, k: string, post: string, views: map<string, View>, metrics: map<string, Number>)
    requires views.Keys + metrics.Keys <= {k}
    requires forall x :: x in views ==> k == Key(views[x].id)
    requires forall x :: x in metrics ==> k == Key(metrics[x].id)
    ensures Consistent(pre + k + post, views, metrics)
  {
    OccursInWhole(k);
    OccursInContext(k, pre, k, post);
  }

  lemma ConsistentInContext(pre: string, format: string, post: string,
                            views: map<string, View>, metrics: map<string, Number>)
    ensures Consistent(format, views, metrics) ==> Consistent(pre + format + post, views, metrics)
  {
    if Consistent(format, views, metrics) {
      AllNamedInContext(views.Keys + metrics.Keys, pre, format, post);
    }
  }

  lemma AllNamedInContext(keys: set<string>, pre: string, format: string, post: string)
    requires AllNamedIn(keys, format)
    ensures AllNamedIn(keys, pre + format + post)
  {
    forall k | k in keys
      ensures OccursIn(k, pre + format + post)
    {
      OccursInContext(k, pre, format, post);
    }
  }

  /** Joining two formats around a separator and uniting their tables, in
      either priority order, keeps the invariant. */
  lemma ConsistentJoin(f1: string, v1: map<string, View>, m1: map<string, Number>, sep: string,
                       f2: string, v2: map<string, View>, m2: map<string, Number>)
    ensures Consistent(f1, v1, m1) && Consistent(f2, v2, m2) ==>
      Consistent(f1 + sep + f2, v1 + v2, m1 + m2) && Consistent(f1 + sep + f2, v2 + v1, m1 + m2)
  {
    if Consistent(f1, v1, m1) && Consistent(f2, v2, m2) {
      NamedAfterJoin(v1.Keys + m1.Keys, v2.Keys + m2.Keys, f1, sep, f2);
      KeyedUnion(v1, m1, v2, m2);
      UnionKeys(v1, m1, v2, m2);
    }
  }

  /** Appending one format to another with no separator, the right-hand
      view table giving way to the left-hand one. */
  lemma ConsistentAppend(f1: string, v1: map<string, View>, m1: map<string, Number>,
                         f2: string, v2: map<string, View>, m2: map<string, Number>)
    requires Consistent(f1, v1, m1) && Consistent(f2, v2, m2)
    ensures Consistent(f1 + f2, v2 + v1, m1 + m2)
  {
    ConsistentJoin(f1, v1, m1, "", f2, v2, m2);
    assert f1 + "" + f2 == f1 + f2;
  }

  lemma UnionKeys(v1: map<string, View>, m1: map<string, Number>, v2: map<string, View>, m2: map<string, Number>)
    ensures (v1 + v2).Keys + (m1 + m2).Keys == (v1.Keys + m1.Keys) + (v2.Keys + m2.Keys)
    ensures (v2 + v1).Keys + (m1 + m2).Keys == (v1.Keys + m1.Keys) + (v2.Keys + m2.Keys)
  {
  }

  lemma NamedAfterJoin(keys1: set<string>, keys2: set<string>, f1: string, sep: string, f2: string)
    requires AllNamedIn(keys1, f1) && AllNamedIn(keys2, f2)
    ensures AllNamedIn(keys1 + keys2, f1 + sep + f2)
  {
    var f := f1 + sep + f2;
    assert f == "" + f1 + (sep + f2);
    AllNamedInContext(keys1, "", f1, sep + f2);
    assert f == (f1 + sep) + f2 + "";
    AllNamedInContext(keys2, f1 + sep, f2, "");
    AllNamedInUnion(keys1, keys2, f);
  }

  lemma AllNamedInUnion(keys1: set<string>, keys2: set<string>, format: string)
    requires AllNamedIn(keys1, format) && AllNamedIn(keys2, format)
    ensures AllNamedIn(keys1 + keys2, format)
  {
  }

  lemma KeyedUnion(v1: map<string, View>, m1: map<string, Number>, v2: map<string, View>, m2: map<string, Number>)
    requires ViewsKeyed(v1) && ViewsKeyed(v2) && MetricsKeyed(m1) && MetricsKeyed(m2)
    ensures ViewsKeyed(v1 + v2) && ViewsKeyed(v2 + v1) && MetricsKeyed(m1 + m2)
  {
  }

  /** Two consistent view tables never disagree on a shared key: the key
      determines the view. */
  lemma ViewTablesAgree(f1: string, v1: map<string, View>, m1: map<string, Number>,
                        f2: string, v2: map<string, View>, m2: map<string, Number>)
    requires Consistent(f1, v1, m1) && Consistent(f2, v2, m2)
    ensures forall k :: k in v1 && k in v2 ==> v1[k] == v2[k]
    ensures v1 + v2 == v2 + v1
  {
    forall k | k in v1 && k in v2
      ensures v1[k] == v2[k]
    {
      KeyInjective(v1[k].id, v2[k].id);
    }
  }
}
