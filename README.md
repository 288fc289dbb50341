# Swiftstraints visual-format front ends, modelled in Dafny

Swiftstraints builds Auto Layout constraints from the visual format language
in two ways, and both hand the host framework's visual-format parser a format
string plus two symbol tables: metrics (key → boxed number) and views
(key → view). Every view or number is named in the format by a symbol key
`A<n>B`, where `<n>` comes from the object's identity.

* The **operator builder** (`VFLComponent`) builds components from a single
  view (`[view]`) or a number literal. It wraps them with the prefix relation
  operators `==`, `>=` and `<=`, the superview edges `|`, `|-`, `|` and `-|`,
  and joins them with the infix `-`. The result is materialised as `H:` or
  `V:` constraints.
* The **interpolated-string builder** (`VisualFormatLanguage`) turns each
  segment of an interpolated string into a fragment. A view gives its key, a
  number gives its key, and anything else gives its text. The fragments are
  merged left to right:
  * formats are appended;
  * metrics overwrite;
  * a view is inserted only under a key not yet present, and `viewCount`
    counts those first insertions.

  Because the view table holds its views weakly, materialisation refuses
  (returns no constraints) whenever the live view entries no longer number
  `viewCount`.

Files:

* `symbols.dfy` (module `Symbols`): object identities, the key `A<digits>B`
  with its decoder, and the invariant shared by both front ends. That
  invariant is `Consistent`: every table key occurs in the format, filed
  under its own object's key.
* `host_layout.dfy` (module `HostLayout`): the arguments of one call of the
  host parser. The model stops there.
* `vfl_component.dfy` (module `VflComponent`): the operator builder.
* `map_tables.dfy` (module `MapTables`): the key-by-key table loops. These
  are the enumeration of a table's keys, the overwriting copy, the
  insert-if-absent copy with its counter, and `vflDictionary`.
* `visual_format.dfy` (module `VisualFormat`): the interpolated-string
  builder, its merge, deallocation and the guarded materialisation.
* `scenarios.dfy` (module `Scenarios`): one layout written both ways.

The loops of Swiftstraints (the `for` loops of `-` and of
`init(stringInterpolation:)`, and the `forEach` of `vflDictionary`) are methods whose `ensures` tie the result to a
specification function. The properties are proved about those functions.

## Model

| member | source | states |
|---|---|---|
| Symbols.Key | Swiftstraints/VFLComponent.swift:11-13 | The key of an identity is at least three characters, starting with `A` and ending with `B`. `KeyShape` shows that the middle is decimal digits, and `KeyRoundTrip` shows that those digits are the identity. |
| Symbols.Digits | Swiftstraints/VFLComponent.swift:12 | The decimal text of an identity is non-empty and all digits, with a leading zero only for zero. |
| Symbols.KeyShape | Swiftstraints/VFLComponent.swift:11-13 | Every key is `A`, decimal digits, `B`, and contains no character the visual format grammar treats specially. |
| Symbols.KeyRoundTrip | Swiftstraints/VFLComponent.swift:11-13 | The identity can be read back out of its key. |
| Symbols.KeyInjective | Swiftstraints/VisualFormatLanguage.swift:11-13 | Two identities have the same key if and only if they are the same identity. |
| Symbols.ConsistentJoin | Swiftstraints/VFLComponent.swift:95-104 | Joining two consistent fragments around any separator, with the view tables united in either priority order, gives a consistent fragment. |
| Symbols.ViewTablesAgree | Swiftstraints/VFLComponent.swift:98-100 | Two consistent view tables agree on every shared key, so their union does not depend on which side wins. |
| VflComponent.FromViews | Swiftstraints/VFLComponent.swift:29-37 | Fatal, building nothing and naming the elements, if and only if the literal does not hold exactly one view. Otherwise the format is `[key]`, the view table is `{key: view}`, the metric table is empty, and the invariant holds. |
| VflComponent.FromFloat | Swiftstraints/VFLComponent.swift:41-46 | The format is the box's key, the metric table is `{key: boxed value}`, the view table is empty, and the invariant holds. |
| VflComponent.FromInteger | Swiftstraints/VFLComponent.swift:48-53 | The same for an integer. The key stored in the table equals the key in the format, although it is computed a second time. |
| VflComponent.PrefixEqual | Swiftstraints/VFLComponent.swift:58-62 | The format becomes `(==f)`, both tables are unchanged, and the invariant is preserved. |
| VflComponent.PrefixAtLeast | Swiftstraints/VFLComponent.swift:63-67 | The format becomes `(>=f)`, both tables are unchanged, and the invariant is preserved. |
| VflComponent.PrefixAtMost | Swiftstraints/VFLComponent.swift:68-72 | The format becomes `(<=f)`, both tables are unchanged, and the invariant is preserved. |
| VflComponent.RelationPrefixesNest | Swiftstraints/VFLComponent.swift:58-72 | Applying a relation prefix twice wraps the format twice; it is not idempotent. |
| VflComponent.PrefixPipe | Swiftstraints/VFLComponent.swift:75-79 | The format becomes `\|f`, both tables are unchanged, and the invariant is preserved. |
| VflComponent.PrefixPipeDash | Swiftstraints/VFLComponent.swift:80-84 | The format becomes `\|-f`, both tables are unchanged, and the invariant is preserved. |
| VflComponent.PostfixPipe | Swiftstraints/VFLComponent.swift:85-89 | The format becomes `f\|`, both tables are unchanged, and the invariant is preserved. |
| VflComponent.PostfixDashPipe | Swiftstraints/VFLComponent.swift:90-94 | The format becomes `f-\|`, both tables are unchanged, and the invariant is preserved. |
| VflComponent.Concatenated | Swiftstraints/VFLComponent.swift:95-105 | The format is `lhs-rhs`. Each table's keys are the union of both operands' keys, the right operand's entry wins on a shared key, and the left operand's entry is kept otherwise. Well-formed operands give a well-formed result. |
| VflComponent.Dash | Swiftstraints/VFLComponent.swift:95-105 | Copying `lhs` and writing every entry of `rhs`'s tables into the copy, key by key, yields exactly `Concatenated(lhs, rhs)`. |
| VflComponent.DashAssociative | Swiftstraints/VFLComponent.swift:95-105 | `(a-b)-c` and `a-(b-c)` give the same format and the same tables. |
| VflComponent.DashViewsCommute | Swiftstraints/VFLComponent.swift:98-100 | On well-formed operands, the view table of `a-b` equals that of `b-a`. |
| VflComponent.HorizontalConstraints | Swiftstraints/VFLComponent.swift:109-111 | The parser gets `H:` followed by the format, the options, and the component's own tables. A well-formed component gives a call whose format names every table key. |
| VflComponent.VerticalConstraints | Swiftstraints/VFLComponent.swift:112-114 | The same with `V:`. |
| VflComponent.SingleViewRoundTrip | Swiftstraints/VFLComponent.swift:29-37 | For `[view]` materialised as `H:`, the format is `H:[key]`, it names the key, and the view table maps the key back to the view. |
| MapTables.KeysOf | Swiftstraints/VisualFormatLanguage.swift:27 | A table's key array lists each key exactly once and nothing else. |
| MapTables.WriteEntries | Swiftstraints/VisualFormatLanguage.swift:27-31 | Writing every entry of a table into another, key by key, gives their union with the written table winning. |
| MapTables.InsertNewViews | Swiftstraints/VisualFormatLanguage.swift:32-38 | Inserting only absent keys yields the union with the existing entries winning, and the count grows by exactly the number of keys that were absent. |
| MapTables.InsertAbsentAll | Swiftstraints/VisualFormatLanguage.swift:32-38 | Visiting each key once in any order inserts exactly the missing entries and counts exactly the missing keys. |
| MapTables.VflDictionary | Swiftstraints/VisualFormatLanguage.swift:56-62 | The dictionary has exactly the table's keys, each mapped to the table's value. |
| VisualFormat.FromSegment | Swiftstraints/VisualFormatLanguage.swift:44-54 | A view gives format `key`, views `{key: view}` and no metrics. A number gives format `key`, metrics `{key: number}` and no views. Anything else gives its description and empty tables. The count is zero in every case. |
| VisualFormat.SegmentWellFormed | Swiftstraints/VisualFormatLanguage.swift:44-54 | Every fragment built from a segment is well formed. |
| VisualFormat.FromInterpolation | Swiftstraints/VisualFormatLanguage.swift:23-42 | The merge loop over the fragments yields exactly `Interpolation(strings)`, the left fold of one merge step per fragment. |
| VisualFormat.InterpolationFormat | Swiftstraints/VisualFormatLanguage.swift:24-26 | The merged format is the in-order concatenation of the fragments' formats. |
| VisualFormat.MergedMetricLastWins | Swiftstraints/VisualFormatLanguage.swift:27-31 | A merged metric entry is that of the last fragment holding the key. |
| VisualFormat.MergedViewFirstWins | Swiftstraints/VisualFormatLanguage.swift:32-38 | A merged view entry is that of the first fragment holding the key; later fragments never replace it. |
| VisualFormat.InterpolationKeys | Swiftstraints/VisualFormatLanguage.swift:27-38 | The merged tables hold exactly the keys of all fragments' tables, and `viewCount` equals both the number of distinct view keys and the size of the merged view table. |
| VisualFormat.MergedCountIsSize | Swiftstraints/VisualFormatLanguage.swift:36 | The count of first insertions equals the size of the merged view table. |
| VisualFormat.InterpolationWellFormed | Swiftstraints/VisualFormatLanguage.swift:23-42 | Merging well-formed fragments gives a builder whose every table key occurs in its format. |
| VisualFormat.InterpolatedStringWellFormed | Swiftstraints/VisualFormatLanguage.swift:23-54 | The builder of any interpolated string is well formed. |
| VisualFormat.InterpolationIsLive | Swiftstraints/VisualFormatLanguage.swift:21 | A freshly merged builder passes the materialisation guard. |
| VisualFormat.IsLive | Swiftstraints/VisualFormatLanguage.swift:67 | The guard passes exactly when the live view entries number `viewCount`. A builder that passes it holds no views exactly when it counted none. |
| VisualFormat.Deallocate | Swiftstraints/VisualFormatLanguage.swift:20 | Deallocating a view drops exactly the weak entries holding it. Format, metrics and `viewCount` are unchanged. |
| VisualFormat.DeallocationBreaksLiveness | Swiftstraints/VisualFormatLanguage.swift:21 | Once a view the builder holds is deallocated, the guard fails. |
| VisualFormat.Constraints | Swiftstraints/VisualFormatLanguage.swift:65-69 | Refused, without a parser call, if and only if the live view entries do not number `viewCount`. Otherwise the parser gets the format as written, the options, and copies of both tables. |
| Scenarios.EdgeToEdgeMerged | Swiftstraints/VisualFormatLanguage.swift:23-54 | The interpolated string made of some leading text, the view, `]-`, the number and `-\|` merges to that text followed by `kv]-kn-\|`. With the leading text `\|-[` that is `\|-[kv]-kn-\|`. Each table holds one entry, one view is counted, and the guard passes. |
| Scenarios.EdgeToEdgeOperators | Swiftstraints/VFLComponent.swift:80-105 | `\|-[view] - number-\|` gives format `\|-[kv]-kn-\|` with one entry in each table. |
| Scenarios.FrontEndsAgree | Swiftstraints/VFLComponent.swift:107-111 | When both boxings of the number give the same object identity, `H:\|-[view] - number-\|` materialised by the operator builder and the interpolated string `"H:\|-[\(view)]-\(number)-\|"` hand the parser the same call: the same format, options, metrics and views. The interpolated builder passes its guard, so it reaches that call. |
| Scenarios.RepeatedViewCountedOnce | Swiftstraints/VisualFormatLanguage.swift:32-38 | A view interpolated twice is entered once and counted once. |
| Scenarios.DeallocatedViewRefused | Swiftstraints/VisualFormatLanguage.swift:65-67 | After the view of `"\|-[\(view)]-\(number)-\|"` is deallocated, the guard fails. |

Unlike the operator builder, the interpolated-string builder adds no
orientation tag. `constraints(_:)` (Swiftstraints/VisualFormatLanguage.swift:68)
passes the merged format exactly as written, so any `H:` or `V:` must be part
of the interpolated string itself. `VisualFormat.Constraints` does the same.

## Left out

- The host parser `NSLayoutConstraint.constraints(withVisualFormat:options:metrics:views:)` is not part of this model. Materialisation stops at the `ParserCall` it would receive, and the constraints it returns are not modelled.
- Keys derived from raw object addresses are not modelled. Identities are abstract natural numbers, and the key is `A`, the identity's decimal digits, then `B`, as the source's `UInt` rendering gives. Address reuse after deallocation is not modelled.
- Scenarios.FrontEndsAgree: assumes that the number's two boxings share one identity. `value as NSNumber` in the operator builder and the interpolated segment's `NSNumber` are separate boxings, each keyed by its own identity, and the model does not decide whether they are one object. With two distinct boxes, the two front ends' keys and metric tables differ.
- View and number-box identities are not kept apart: both are drawn from one space of natural numbers, so the model admits a view and a box with the same identity, whose key would then sit in both tables. In the program a live view and a live box never share an address.
- Weak-memory timing is not modelled. A view's deallocation is the explicit step `VisualFormat.Deallocate`, and the builder's `views` holds only live entries. A weak entry that goes nil during the merge, and would then be inserted again, is not modelled.
- `UIView`/`NSNumber` bridging is not modelled. A segment's runtime type test becomes the `Segment` datatype, and `String(describing:)` becomes the given `description` string.
- The array-literal fatal error is modelled as a `FatalError` result that builds no component. The program stopping is not modelled.
- A `Double` literal is a Dafny `real`, so floating-point rounding is not modelled.
- `NSLayoutFormatOptions` is an opaque set that is passed through untouched.
- The `as?`/`as!` casts of the parser's result (Swiftstraints/VFLComponent.swift:110, 113 and Swiftstraints/VisualFormatLanguage.swift:84-90) are not modelled, because they act on the parser's output.
- The no-argument `constraints` property and the `Array` initialiser wrapping `constraints(_:)` (Swiftstraints/VisualFormatLanguage.swift:71-74, 80-90) are not modelled. They only forward empty options or the same result.
- Table iteration order is any order: keys are listed by a nondeterministic choice. Every result is proved independent of the order.
- `NSMapTable` reference semantics are not modelled: copy-in keys, and the struct copies that share one table object. The tables are values.
- The visual format grammar is not validated, as in the source.
