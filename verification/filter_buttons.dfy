/** `Instructeurs::FilterButtonsComponent`: one dismiss form per active
    filter, grouped by column. A form is modelled by the hidden fields it
    submits and the text of its button; the rendered fragment is a sequence
    of forms and connective texts. */
module FilterButtons {
  import opened Results
  import opened FilterTypes
  import opened RubyString
  import opened HumanValueFormatter
  import opened Grouping
  import opened Collections

  /** A hidden form field: its name and value. */
  datatype Field = Field(name: string, value: string)

  /** A dismiss form: the hidden fields it submits, then its button's text. */
  datatype DismissUnit = DismissUnit(fields: seq<Field>, button: string)

  /** A piece of the rendered fragment: a form, or connective text. */
  datatype Fragment = Form(unit: DismissUnit) | Text(text: string)

  const FiltersMarkerName: string := "filters[]"
  const FilterIdName: string := "filters[][id]"
  const FilterValueName: string := "filters[][filter]"
  const StatutName: string := "statut"

  /** The empty `filters[]` entry every form submits first, so that the
      filter list arrives even when nothing else is left in it. */
  const EmptyFiltersMarker: Field := Field(FiltersMarkerName, "")

  /** How much of a column label the button shows. */
  const LabelLength: nat := 50

  /** Between a button's label and its value. */
  const LabelSeparator: string := " : "

  /** Between the forms of one column's filters. */
  const OrConnective: string := " ou "

  /** Between the groups of different columns. */
  const AndConnective: string := " et "

  // Removal: what a dismiss form keeps.

  /** How many filters of `fs` equal `f`. */
  function Occurrences(fs: seq<Filter>, f: Filter): (n: nat)
    ensures n <= |fs|
    ensures n == 0 <==> forall i :: 0 <= i < |fs| ==> !SameFilter(fs[i], f)
  {
    if |fs| == 0 then 0
    else
      assert forall i :: 1 <= i < |fs| ==> fs[i] == fs[1..][i - 1];
      (if SameFilter(fs[0], f) then 1 else 0) + Occurrences(fs[1..], f)
  }

  /** `@filters.reject { _1 == filter }`: the filters a dismiss form keeps.
      Every filter equal to `f` is dropped, not just one. */
  function Reject(fs: seq<Filter>, f: Filter): (kept: seq<Filter>)
    ensures |kept| == |fs| - Occurrences(fs, f)
  {
    if |fs| == 0 then []
    else (if SameFilter(fs[0], f) then [] else [fs[0]]) + Reject(fs[1..], f)
  }

  /** A dismiss form keeps exactly the filters not equal to `f`. */
  lemma {:induction false} RejectMembers(fs: seq<Filter>, f: Filter)
    ensures forall g :: g in Reject(fs, f) <==> g in fs && !SameFilter(g, f)
  {
    if |fs| > 0 {
      RejectMembers(fs[1..], f);
      assert fs == [fs[0]] + fs[1..];
    }
  }

  /** When `fs[i]` is the only filter equal to itself, dismissing it keeps
      everything else in order. */
  lemma {:induction false} RejectSingleOccurrence(fs: seq<Filter>, i: int)
    requires 0 <= i < |fs|
    requires forall j :: 0 <= j < |fs| && j != i ==> !SameFilter(fs[j], fs[i])
    ensures Reject(fs, fs[i]) == fs[..i] + fs[i + 1..]
  {
    var f, tail := fs[i], fs[1..];
    if i == 0 {
      forall j | 0 <= j < |tail| ensures !SameFilter(tail[j], f) {
        assert tail[j] == fs[j + 1];
      }
      RejectNone(tail, f);
      assert Reject(fs, f) == [] + Reject(tail, f);
    } else {
      assert Reject(fs, f) == [fs[0]] + Reject(tail, f) by {
        assert !SameFilter(fs[0], f);
      }
      assert tail[i - 1] == f;
      forall j | 0 <= j < |tail| && j != i - 1 ensures !SameFilter(tail[j], tail[i - 1]) {
        assert tail[j] == fs[j + 1];
      }
      RejectSingleOccurrence(tail, i - 1);
      assert [fs[0]] + (tail[..i - 1] + tail[i..]) == fs[..i] + fs[i + 1..];
    }
  }

  lemma {:induction false} RejectAppend(a: seq<Filter>, b: seq<Filter>, f: Filter)
    ensures Reject(a + b, f) == Reject(a, f) + Reject(b, f)
  {
    if |a| > 0 {
      assert (a + b)[1..] == a[1..] + b;
      RejectAppend(a[1..], b, f);
    } else {
      assert a + b == b;
    }
  }

  lemma {:induction false} RejectNone(fs: seq<Filter>, f: Filter)
    requires forall j :: 0 <= j < |fs| ==> !SameFilter(fs[j], f)
    ensures Reject(fs, f) == fs
  {
    if |fs| > 0 {
      RejectNone(fs[1..], f);
    }
  }

  /** Without duplicate filters, a dismiss form keeps exactly the other
      n - 1 filters. */
  lemma RejectWithoutDuplicates(fs: seq<Filter>, i: int)
    requires 0 <= i < |fs|
    requires forall j, k :: 0 <= j < k < |fs| ==> !SameFilter(fs[j], fs[k])
    ensures |Reject(fs, fs[i])| == |fs| - 1
  {
    forall j | 0 <= j < |fs| && j != i ensures !SameFilter(fs[j], fs[i]) {
      if j > i { assert !SameFilter(fs[i], fs[j]); }
    }
    RejectSingleOccurrence(fs, i);
  }

  /** A filter present twice is dropped twice: dismissing it keeps neither. */
  lemma RejectDropsEveryCopy(f: Filter)
    ensures Reject([f, f], f) == []
  {
    assert [f, f][1..] == [f];
  }

  // The dismiss form.

  /** The hidden fields of the kept filters (`flat_map` of an id field and a
      value field per filter). */
  function HiddenFields(kept: seq<Filter>): (fields: seq<Field>)
    ensures |fields| == 2 * |kept|
  {
    if |kept| == 0 then []
    else [Field(FilterIdName, kept[0].column.id), Field(FilterValueName, kept[0].value)]
         + HiddenFields(kept[1..])
  }

  /** Each kept filter contributes its column id, then its raw value, in the
      order the filters are kept. */
  lemma {:induction false} HiddenFieldsContents(kept: seq<Filter>)
    ensures forall i :: 0 <= i < |kept| ==>
              HiddenFields(kept)[2 * i] == Field(FilterIdName, kept[i].column.id)
              && HiddenFields(kept)[2 * i + 1] == Field(FilterValueName, kept[i].value)
  {
    if |kept| > 0 {
      var rest := HiddenFields(kept[1..]);
      HiddenFieldsContents(kept[1..]);
      forall i | 1 <= i < |kept|
        ensures HiddenFields(kept)[2 * i] == Field(FilterIdName, kept[i].column.id)
                && HiddenFields(kept)[2 * i + 1] == Field(FilterValueName, kept[i].value)
      {
        assert kept[i] == kept[1..][i - 1];
        assert HiddenFields(kept)[2 * i] == rest[2 * (i - 1)];
        assert HiddenFields(kept)[2 * i + 1] == rest[2 * (i - 1) + 1];
      }
    }
  }

  /** `other_hidden_fields(filter)`: two fields per kept filter, which read
      back as the kept filters' (column id, raw value) pairs, in order. */
  function OtherHiddenFields(fs: seq<Filter>, f: Filter): (fields: seq<Field>)
    ensures |fields| == 2 * |Reject(fs, f)|
    ensures ReadPairs(fields) == Some(Params(Reject(fs, f)))
  {
    ReadPairsOfHiddenFields(Reject(fs, f));
    HiddenFields(Reject(fs, f))
  }

  /** `button_content(filter)`: the column label cut to 50 characters, then
      `" : "`, then the human value; raises when the human value does. */
  function ButtonContent(ctx: Context, f: Filter): (r: Result<string, RenderError>)
    ensures r.Ok? <==> HumanValue(ctx, f).Ok?
    ensures r.Err? ==> r.error == HumanValue(ctx, f).error
  {
    match HumanValue(ctx, f)
    case Ok(v) => Ok(Truncate(f.column.columnLabel, LabelLength) + LabelSeparator + v)
    case Err(e) => Err(e)
  }

  /** The button shows a label of at most 50 characters whole, and a longer
      one as its first 47 characters and `"..."`, 50 characters in all. */
  lemma ButtonContentText(ctx: Context, f: Filter)
    requires HumanValue(ctx, f).Ok?
    ensures var name, v := f.column.columnLabel, HumanValue(ctx, f).value;
            |name| <= LabelLength ==> ButtonContent(ctx, f) == Ok(name + " : " + v)
    ensures var name, v := f.column.columnLabel, HumanValue(ctx, f).value;
            |name| > LabelLength ==>
              ButtonContent(ctx, f) == Ok(name[..47] + "..." + " : " + v)
              && |name[..47] + "..."| == 50
  {
  }

  /** `filter_form(filter)`: the empty `filters[]` marker, the kept filters,
      the unchanged `statut`, and the button. Raises when the button's human
      value does. */
  function FilterForm(ctx: Context, statut: string, fs: seq<Filter>, f: Filter)
    : (r: Result<DismissUnit, RenderError>)
    ensures r.Ok? <==> HumanValue(ctx, f).Ok?
    ensures r.Err? ==> r.error == HumanValue(ctx, f).error
    ensures r.Ok? ==>
              var fields := r.value.fields;
              |fields| == 2 * |Reject(fs, f)| + 2
              && fields[0] == EmptyFiltersMarker
              && fields[|fields| - 1] == Field(StatutName, statut)
    ensures r.Ok? ==> r.value.button == ButtonContent(ctx, f).value
  {
    var fields := [EmptyFiltersMarker] + OtherHiddenFields(fs, f) + [Field(StatutName, statut)];
    match ButtonContent(ctx, f)
    case Ok(b) => Ok(DismissUnit(fields, b))
    case Err(e) => Err(e)
  }

  /** Dismissing the only filter still submits the empty marker, now
      followed by nothing but `statut`. */
  lemma FilterFormOfSoleFilter(ctx: Context, statut: string, f: Filter)
    requires HumanValue(ctx, f).Ok?
    ensures FilterForm(ctx, statut, [f], f).value.fields
            == [EmptyFiltersMarker, Field(StatutName, statut)]
  {
    assert Reject([f], f) == [];
  }

  // What a dismiss form submits, read back.

  /** One kept filter as submitted: `filters[][id]` and `filters[][filter]`. */
  datatype FilterParam = FilterParam(id: string, filter: string)

  /** What the list view receives from a dismiss form. */
  datatype Submission = Submission(filters: seq<FilterParam>, statut: string)

  function Params(fs: seq<Filter>): (ps: seq<FilterParam>)
    ensures |ps| == |fs|
    ensures forall i :: 0 <= i < |fs| ==> ps[i] == FilterParam(fs[i].column.id, fs[i].value)
  {
    if |fs| == 0 then [] else [FilterParam(fs[0].column.id, fs[0].value)] + Params(fs[1..])
  }

  /** Reads consecutive id/value field pairs back as filters. */
  function ReadPairs(fields: seq<Field>): Option<seq<FilterParam>> {
    if |fields| == 0 then Some([])
    else if |fields| >= 2 && fields[0].name == FilterIdName && fields[1].name == FilterValueName then
      match ReadPairs(fields[2..])
      case Some(ps) => Some([FilterParam(fields[0].value, fields[1].value)] + ps)
      case None => None
    else None
  }

  /** Reads a form's fields back as the request it sends: the empty marker
      first, then the kept filters, then `statut`; `None` for fields of any
      other shape. */
  function ReadBack(fields: seq<Field>): Option<Submission> {
    if |fields| >= 2 && fields[0] == EmptyFiltersMarker && fields[|fields| - 1].name == StatutName then
      match ReadPairs(fields[1..|fields| - 1])
      case Some(ps) => Some(Submission(ps, fields[|fields| - 1].value))
      case None => None
    else None
  }

  lemma {:induction false} ReadPairsOfHiddenFields(kept: seq<Filter>)
    ensures ReadPairs(HiddenFields(kept)) == Some(Params(kept))
  {
    if |kept| > 0 {
      var fields := HiddenFields(kept);
      assert fields[2..] == HiddenFields(kept[1..]);
      ReadPairsOfHiddenFields(kept[1..]);
    }
  }

  /** Submitting the dismiss form of `f` sends back every filter not equal
      to `f`, in order, as (column id, raw value) pairs, and `statut`
      unchanged. */
  lemma FilterFormResubmitsOthers(ctx: Context, statut: string, fs: seq<Filter>, f: Filter)
    requires HumanValue(ctx, f).Ok?
    ensures ReadBack(FilterForm(ctx, statut, fs, f).value.fields)
            == Some(Submission(Params(Reject(fs, f)), statut))
  {
    var fields := FilterForm(ctx, statut, fs, f).value.fields;
    assert fields[1..|fields| - 1] == OtherHiddenFields(fs, f);
    ReadPairsOfHiddenFields(Reject(fs, f));
  }

  // Rendering.

  /** `safe_join(parts, sep)`: the parts with `sep` between neighbours,
      starting with the first part. */
  function Join(parts: seq<seq<Fragment>>, sep: string): (out: seq<Fragment>)
    ensures |parts| == 0 ==> out == []
    ensures |parts| > 0 ==> parts[0] <= out
  {
    if |parts| == 0 then []
    else if |parts| == 1 then parts[0]
    else parts[0] + [Text(sep)] + Join(parts[1..], sep)
  }

  /** The inverse of `Join`: the pieces of `out` between occurrences of
      `sep`. No piece holds the separator. */
  function Split(out: seq<Fragment>, sep: string): (parts: seq<seq<Fragment>>)
    ensures |parts| > 0
    ensures forall i :: 0 <= i < |parts| ==> Text(sep) !in parts[i]
  {
    if |out| == 0 then [[]]
    else
      var rest := Split(out[1..], sep);
      if out[0] == Text(sep) then
        assert forall i :: 1 <= i < |rest| + 1 ==> ([[]] + rest)[i] == rest[i - 1];
        [[]] + rest
      else
        var parts := [[out[0]] + rest[0]] + rest[1..];
        assert forall i :: 1 <= i < |parts| ==> parts[i] == rest[i];
        parts
  }

  /** The forms of a fragment, in order. */
  function Units(out: seq<Fragment>): seq<DismissUnit> {
    if |out| == 0 then []
    else (if out[0].Form? then [out[0].unit] else []) + Units(out[1..])
  }

  /** How many times the connective `t` occurs in a fragment. */
  function TextCount(out: seq<Fragment>, t: string): nat {
    if |out| == 0 then 0
    else (if out[0] == Text(t) then 1 else 0) + TextCount(out[1..], t)
  }

  /** `filter_form` as a block, to map over filters. */
  function FormOf(ctx: Context, statut: string, fs: seq<Filter>): Filter -> Result<DismissUnit, RenderError> {
    f => FilterForm(ctx, statut, fs, f)
  }

  /** `group.map { |f| filter_form(f) }`: the forms of the filters of `xs`,
      in order; raises at the first filter whose form raises. */
  function RenderForms(ctx: Context, statut: string, fs: seq<Filter>, xs: seq<Filter>)
    : (r: Result<seq<DismissUnit>, RenderError>)
    ensures r.Ok? ==> |r.value| == |xs|
  {
    MapResult(FormOf(ctx, statut, fs), xs)
  }

  /** Rendering succeeds exactly when every filter's human value does. */
  lemma RenderFormsSucceeds(ctx: Context, statut: string, fs: seq<Filter>, xs: seq<Filter>)
    ensures RenderForms(ctx, statut, fs, xs).Ok? <==> forall i :: 0 <= i < |xs| ==> HumanValue(ctx, xs[i]).Ok?
  {
    MapResultSucceeds(FormOf(ctx, statut, fs), xs);
  }

  /** Rendered forms line up with the filters: the i-th form is the
      dismiss form of the i-th filter. */
  lemma RenderFormsContents(ctx: Context, statut: string, fs: seq<Filter>, xs: seq<Filter>)
    requires RenderForms(ctx, statut, fs, xs).Ok?
    ensures forall i :: 0 <= i < |xs| ==>
              FilterForm(ctx, statut, fs, xs[i]) == Ok(RenderForms(ctx, statut, fs, xs).value[i])
  {
    MapResultContents(FormOf(ctx, statut, fs), xs);
  }

  /** Rendering raises the error of the first filter whose human value
      raises. */
  lemma RenderFormsFirstError(ctx: Context, statut: string, fs: seq<Filter>, xs: seq<Filter>)
    requires RenderForms(ctx, statut, fs, xs).Err?
    ensures exists i :: 0 <= i < |xs| && HumanValue(ctx, xs[i]) == Err(RenderForms(ctx, statut, fs, xs).error)
                        && forall j :: 0 <= j < i ==> HumanValue(ctx, xs[j]).Ok?
  {
    MapResultFirstError(FormOf(ctx, statut, fs), xs);
  }

  /** `.map { |group| group.map { |f| filter_form(f) } }`: the forms of each
      group, group by group; raises at the first form that raises. */
  function RenderGroups(ctx: Context, statut: string, fs: seq<Filter>, groups: seq<seq<Filter>>)
    : Result<seq<seq<DismissUnit>>, RenderError>
  {
    MapResult(MapEach(FormOf(ctx, statut, fs)), groups)
  }

  /** One group's forms joined with `" ou "`. */
  function GroupFragment(us: seq<DismissUnit>): seq<Fragment> {
    Join(Singletons(us), OrConnective)
  }

  function Singletons(us: seq<DismissUnit>): (parts: seq<seq<Fragment>>)
    ensures |parts| == |us| && forall i :: 0 <= i < |us| ==> parts[i] == [Form(us[i])]
  {
    if |us| == 0 then [] else [[Form(us[0])]] + Singletons(us[1..])
  }

  function GroupFragments(uss: seq<seq<DismissUnit>>): (parts: seq<seq<Fragment>>)
    ensures |parts| == |uss| && forall i :: 0 <= i < |uss| ==> parts[i] == GroupFragment(uss[i])
  {
    if |uss| == 0 then [] else [GroupFragment(uss[0])] + GroupFragments(uss[1..])
  }

  /** `filters_by_family`: each group's forms joined with `" ou "`, one
      part per group; raises what the first failing filter raises. */
  function FiltersByFamily(ctx: Context, statut: string, fs: seq<Filter>)
    : (r: Result<seq<seq<Fragment>>, RenderError>)
    ensures r.Ok? ==> |r.value| == |Groups(fs)|
    ensures r.Err? ==> exists i :: 0 <= i < |fs| && HumanValue(ctx, fs[i]) == Err(r.error)
  {
    match RenderGroups(ctx, statut, fs, Groups(fs))
    case Err(e) =>
      GroupsFirstError(ctx, statut, fs);
      Err(e)
    case Ok(uss) =>
      RenderGroupsLengths(ctx, statut, fs, Groups(fs));
      Ok(GroupFragments(uss))
  }

  /** `call`: the parts of `filters_by_family` joined with `" et "`. Split
      at `" et "`, the output gives the parts back; raises what some
      filter's human value raises. */
  function Call(ctx: Context, statut: string, fs: seq<Filter>): (r: Result<seq<Fragment>, RenderError>)
    ensures r.Ok? && |fs| > 0 ==>
              FiltersByFamily(ctx, statut, fs).Ok?
              && Split(r.value, AndConnective) == FiltersByFamily(ctx, statut, fs).value
    ensures r.Err? ==> exists i :: 0 <= i < |fs| && HumanValue(ctx, fs[i]) == Err(r.error)
  {
    match FiltersByFamily(ctx, statut, fs)
    case Err(e) => Err(e)
    case Ok(parts) =>
      FamiliesFreeOfAnd(ctx, statut, fs);
      SplitJoin(parts, AndConnective);
      Ok(Join(parts, AndConnective))
  }

  // Facts about joining.

  lemma {:induction false} UnitsAppend(a: seq<Fragment>, b: seq<Fragment>)
    ensures Units(a + b) == Units(a) + Units(b)
  {
    if |a| > 0 {
      assert (a + b)[1..] == a[1..] + b;
      UnitsAppend(a[1..], b);
    } else {
      assert a + b == b;
    }
  }

  lemma {:induction false} TextCountAppend(a: seq<Fragment>, b: seq<Fragment>, t: string)
    ensures TextCount(a + b, t) == TextCount(a, t) + TextCount(b, t)
  {
    if |a| > 0 {
      assert (a + b)[1..] == a[1..] + b;
      TextCountAppend(a[1..], b, t);
    } else {
      assert a + b == b;
    }
  }

  function AllUnits(parts: seq<seq<Fragment>>): seq<DismissUnit> {
    if |parts| == 0 then [] else Units(parts[0]) + AllUnits(parts[1..])
  }

  function AllTextCount(parts: seq<seq<Fragment>>, t: string): nat {
    if |parts| == 0 then 0 else TextCount(parts[0], t) + AllTextCount(parts[1..], t)
  }

  lemma SingleFragment(x: Fragment, t: string)
    ensures Units([x]) == if x.Form? then [x.unit] else []
    ensures TextCount([x], t) == if x == Text(t) then 1 else 0
  {
    assert [x][1..] == [];
  }

  lemma {:induction false} TextCountZero(out: seq<Fragment>, t: string)
    requires TextCount(out, t) == 0
    ensures Text(t) !in out
  {
    if |out| > 0 {
      TextCountZero(out[1..], t);
      assert out == [out[0]] + out[1..];
    }
  }

  lemma {:induction false} SplitAppendFree(a: seq<Fragment>, b: seq<Fragment>, sep: string)
    requires Text(sep) !in a
    ensures Split(a + b, sep) == [a + Split(b, sep)[0]] + Split(b, sep)[1..]
  {
    var sb := Split(b, sep);
    if |a| == 0 {
      assert a + b == b;
      assert a + sb[0] == sb[0];
      assert sb == [sb[0]] + sb[1..];
    } else {
      assert (a + b)[0] == a[0];
      assert (a + b)[1..] == a[1..] + b;
      SplitAppendFree(a[1..], b, sep);
      assert [a[0]] + (a[1..] + sb[0]) == a + sb[0];
    }
  }

  lemma SplitAfterSeparator(tail: seq<Fragment>, sep: string)
    ensures Split([Text(sep)] + tail, sep) == [[]] + Split(tail, sep)
  {
    assert ([Text(sep)] + tail)[1..] == tail;
  }

  /** Splitting a join at its separator gives the parts back, when no part
      holds the separator. */
  lemma {:induction false} SplitJoin(parts: seq<seq<Fragment>>, sep: string)
    requires forall i :: 0 <= i < |parts| ==> Text(sep) !in parts[i]
    ensures |parts| > 0 ==> Split(Join(parts, sep), sep) == parts
  {
    if |parts| == 1 {
      SplitAppendFree(parts[0], [], sep);
      assert parts[0] + [] == parts[0];
    } else if |parts| > 1 {
      var tail := Join(parts[1..], sep);
      var rest := [Text(sep)] + tail;
      assert Join(parts, sep) == parts[0] + rest;
      SplitJoin(parts[1..], sep);
      SplitAfterSeparator(tail, sep);
      SplitAppendFree(parts[0], rest, sep);
      assert parts[0] + [] == parts[0];
      assert parts == [parts[0]] + parts[1..];
    }
  }

  /** Joining the pieces of a split at the same separator gives the fragment
      back. */
  lemma {:induction false} JoinSplit(out: seq<Fragment>, sep: string)
    ensures Join(Split(out, sep), sep) == out
  {
    if |out| > 0 {
      var rest := Split(out[1..], sep);
      JoinSplit(out[1..], sep);
      if out[0] == Text(sep) {
        var parts := [[]] + rest;
        assert parts[1..] == rest;
        assert Join(parts, sep) == [] + [Text(sep)] + Join(rest, sep);
        assert out == [out[0]] + out[1..];
      } else {
        var parts := [[out[0]] + rest[0]] + rest[1..];
        assert parts[1..] == rest[1..];
        if |rest| == 1 {
          assert Join(parts, sep) == [out[0]] + rest[0];
        } else {
          assert Join(rest, sep) == rest[0] + [Text(sep)] + Join(rest[1..], sep);
          assert Join(parts, sep) == ([out[0]] + rest[0]) + [Text(sep)] + Join(rest[1..], sep);
        }
        assert out == [out[0]] + out[1..];
      }
    }
  }

  /** Joining keeps every part's forms, in order. */
  lemma {:induction false} JoinUnits(parts: seq<seq<Fragment>>, sep: string)
    ensures Units(Join(parts, sep)) == AllUnits(parts)
  {
    if |parts| == 1 {
      assert AllUnits(parts[1..]) == [];
    } else if |parts| > 1 {
      var head, tail := parts[0] + [Text(sep)], Join(parts[1..], sep);
      JoinUnits(parts[1..], sep);
      UnitsAppend(head, tail);
      UnitsAppend(parts[0], [Text(sep)]);
      SingleFragment(Text(sep), sep);
    }
  }

  /** Joining adds one separator between each two neighbouring parts. */
  lemma {:induction false} JoinTextCount(parts: seq<seq<Fragment>>, sep: string, t: string)
    ensures TextCount(Join(parts, sep), t)
            == AllTextCount(parts, t) + (if t == sep && |parts| > 0 then |parts| - 1 else 0)
  {
    if |parts| == 1 {
      assert AllTextCount(parts[1..], t) == 0;
    } else if |parts| > 1 {
      var head, tail := parts[0] + [Text(sep)], Join(parts[1..], sep);
      JoinTextCount(parts[1..], sep, t);
      TextCountAppend(head, tail, t);
      TextCountAppend(parts[0], [Text(sep)], t);
      SingleFragment(Text(sep), t);
    }
  }

  lemma {:induction false} SingletonsContents(us: seq<DismissUnit>, t: string)
    ensures AllUnits(Singletons(us)) == us
    ensures AllTextCount(Singletons(us), t) == 0
  {
    if |us| > 0 {
      SingletonsContents(us[1..], t);
      assert Singletons(us)[1..] == Singletons(us[1..]);
      SingleFragment(Form(us[0]), t);
      assert us == [us[0]] + us[1..];
    }
  }

  /** A group's fragment holds its forms in order, with `" ou "` between each
      two of them and no `" et "`. */
  lemma GroupFragmentContents(us: seq<DismissUnit>)
    ensures Units(GroupFragment(us)) == us
    ensures |us| > 0 ==> TextCount(GroupFragment(us), OrConnective) == |us| - 1
    ensures TextCount(GroupFragment(us), AndConnective) == 0
  {
    JoinUnits(Singletons(us), OrConnective);
    JoinTextCount(Singletons(us), OrConnective, OrConnective);
    JoinTextCount(Singletons(us), OrConnective, AndConnective);
    SingletonsContents(us, OrConnective);
    SingletonsContents(us, AndConnective);
  }

  function SumLengths(uss: seq<seq<DismissUnit>>): nat {
    if |uss| == 0 then 0 else |uss[0]| + SumLengths(uss[1..])
  }

  lemma {:induction false} GroupFragmentsContents(uss: seq<seq<DismissUnit>>)
    requires forall i :: 0 <= i < |uss| ==> |uss[i]| > 0
    ensures AllUnits(GroupFragments(uss)) == Flatten(uss)
    ensures AllTextCount(GroupFragments(uss), OrConnective) == SumLengths(uss) - |uss|
    ensures AllTextCount(GroupFragments(uss), AndConnective) == 0
    ensures SumLengths(uss) >= |uss|
  {
    if |uss| > 0 {
      GroupFragmentsContents(uss[1..]);
      GroupFragmentContents(uss[0]);
      assert GroupFragments(uss)[1..] == GroupFragments(uss[1..]);
    }
  }

  // Facts about rendering.

  /** Rendering group by group renders the flattened groups, forms and first
      error alike. */
  lemma RenderGroupsFlattens(ctx: Context, statut: string, fs: seq<Filter>, groups: seq<seq<Filter>>)
    ensures RenderForms(ctx, statut, fs, Flatten(groups))
            == match RenderGroups(ctx, statut, fs, groups)
               case Ok(uss) => Ok(Flatten(uss))
               case Err(e) => Err(e)
  {
    MapResultFlatten(FormOf(ctx, statut, fs), groups);
  }

  /** The flattened groups hold the same filters as the input. */
  lemma SameFiltersAsGroups(fs: seq<Filter>)
    ensures |Flatten(Groups(fs))| == |fs|
    ensures forall g :: g in Flatten(Groups(fs)) <==> g in fs
  {
    var flat := Flatten(Groups(fs));
    GroupsArePermutation(fs);
    forall g ensures g in flat <==> g in fs {
      assert g in flat <==> g in multiset(flat);
    }
  }

  /** `call` renders exactly when every filter's human value does. */
  lemma CallSucceeds(ctx: Context, statut: string, fs: seq<Filter>)
    ensures Call(ctx, statut, fs).Ok? <==> forall i :: 0 <= i < |fs| ==> HumanValue(ctx, fs[i]).Ok?
  {
    var flat := Flatten(Groups(fs));
    SameFiltersAsGroups(fs);
    RenderGroupsFlattens(ctx, statut, fs, Groups(fs));
    RenderFormsSucceeds(ctx, statut, fs, flat);
    assert Call(ctx, statut, fs).Ok? <==> RenderForms(ctx, statut, fs, flat).Ok?;
    if forall i :: 0 <= i < |flat| ==> HumanValue(ctx, flat[i]).Ok? {
      forall i | 0 <= i < |fs| ensures HumanValue(ctx, fs[i]).Ok? {
        assert fs[i] in flat;
      }
    }
    if forall i :: 0 <= i < |fs| ==> HumanValue(ctx, fs[i]).Ok? {
      forall i | 0 <= i < |flat| ensures HumanValue(ctx, flat[i]).Ok? {
        assert flat[i] in fs;
      }
    }
  }

  /** When `call` raises, it raises the error of the first filter whose human
      value raises, taking the filters group by group (groups by first
      appearance of their column, filters in input order). */
  lemma CallFirstError(ctx: Context, statut: string, fs: seq<Filter>)
    requires Call(ctx, statut, fs).Err?
    ensures var flat := Flatten(Groups(fs));
            exists i :: 0 <= i < |flat| && HumanValue(ctx, flat[i]) == Err(Call(ctx, statut, fs).error)
                        && forall j :: 0 <= j < i ==> HumanValue(ctx, flat[j]).Ok?
  {
    RenderGroupsFlattens(ctx, statut, fs, Groups(fs));
    RenderFormsFirstError(ctx, statut, fs, Flatten(Groups(fs)));
  }

  lemma GroupsFirstError(ctx: Context, statut: string, fs: seq<Filter>)
    requires RenderGroups(ctx, statut, fs, Groups(fs)).Err?
    ensures exists i :: 0 <= i < |fs| && HumanValue(ctx, fs[i]) == Err(RenderGroups(ctx, statut, fs, Groups(fs)).error)
  {
    var flat := Flatten(Groups(fs));
    RenderGroupsFlattens(ctx, statut, fs, Groups(fs));
    RenderFormsFirstError(ctx, statut, fs, flat);
    var k :| 0 <= k < |flat| && HumanValue(ctx, flat[k]) == Err(RenderForms(ctx, statut, fs, flat).error)
             && forall j :: 0 <= j < k ==> HumanValue(ctx, flat[j]).Ok?;
    SameFiltersAsGroups(fs);
    assert flat[k] in fs;
  }

  /** A group's forms, joined, never hold `" et "`; there is a part for
      each group, so at least one when there is a filter. */
  lemma FamiliesFreeOfAnd(ctx: Context, statut: string, fs: seq<Filter>)
    ensures FiltersByFamily(ctx, statut, fs).Ok? ==>
              forall i :: 0 <= i < |FiltersByFamily(ctx, statut, fs).value| ==>
                Text(AndConnective) !in FiltersByFamily(ctx, statut, fs).value[i]
    ensures FiltersByFamily(ctx, statut, fs).Ok? && |fs| > 0 ==> |FiltersByFamily(ctx, statut, fs).value| > 0
  {
    if FiltersByFamily(ctx, statut, fs).Ok? {
      FamiliesFreeOfAndOk(ctx, statut, fs);
    }
  }

  lemma FamiliesFreeOfAndOk(ctx: Context, statut: string, fs: seq<Filter>)
    requires FiltersByFamily(ctx, statut, fs).Ok?
    ensures forall i :: 0 <= i < |FiltersByFamily(ctx, statut, fs).value| ==>
              Text(AndConnective) !in FiltersByFamily(ctx, statut, fs).value[i]
    ensures |fs| > 0 ==> |FiltersByFamily(ctx, statut, fs).value| > 0
  {
    var uss := RenderGroups(ctx, statut, fs, Groups(fs)).value;
    var parts := FiltersByFamily(ctx, statut, fs).value;
    assert parts == GroupFragments(uss);
    forall i | 0 <= i < |parts| ensures Text(AndConnective) !in parts[i] {
      GroupFragmentContents(uss[i]);
      TextCountZero(GroupFragment(uss[i]), AndConnective);
    }
    GroupSizes(fs);
    if |Groups(fs)| == 0 {
      assert SumSizes(Groups(fs)) == 0;
    }
  }

  /** Each part of `filters_by_family`, split at `" ou "`, is its group's
      forms one by one: `" ou "` sits only between two forms of one column. */
  lemma FamilySplitsIntoForms(ctx: Context, statut: string, fs: seq<Filter>)
    ensures FiltersByFamily(ctx, statut, fs).Ok? ==>
              RenderGroups(ctx, statut, fs, Groups(fs)).Ok? &&
              var uss := RenderGroups(ctx, statut, fs, Groups(fs)).value;
              forall i :: 0 <= i < |uss| ==>
                Split(FiltersByFamily(ctx, statut, fs).value[i], OrConnective) == Singletons(uss[i])
  {
    if FiltersByFamily(ctx, statut, fs).Ok? {
      FamilySplitsIntoFormsOk(ctx, statut, fs);
    }
  }

  lemma FamilySplitsIntoFormsOk(ctx: Context, statut: string, fs: seq<Filter>)
    requires FiltersByFamily(ctx, statut, fs).Ok?
    ensures var uss := RenderGroups(ctx, statut, fs, Groups(fs)).value;
            forall i :: 0 <= i < |uss| ==>
              Split(FiltersByFamily(ctx, statut, fs).value[i], OrConnective) == Singletons(uss[i])
  {
    var uss := RenderGroups(ctx, statut, fs, Groups(fs)).value;
    RenderGroupsLengths(ctx, statut, fs, Groups(fs));
    GroupSizes(fs);
    forall i | 0 <= i < |uss|
      ensures Split(FiltersByFamily(ctx, statut, fs).value[i], OrConnective) == Singletons(uss[i])
    {
      var singles := Singletons(uss[i]);
      assert forall k :: 0 <= k < |singles| ==> Text(OrConnective) !in singles[k];
      SplitJoin(singles, OrConnective);
    }
  }

  /** A rendered `call` holds one form per filter: the forms of the filters
      group by group, `" ou "` between forms of one column and `" et "`
      between columns. */
  lemma CallLayout(ctx: Context, statut: string, fs: seq<Filter>)
    requires Call(ctx, statut, fs).Ok?
    ensures var out := Call(ctx, statut, fs).value;
            && RenderForms(ctx, statut, fs, Flatten(Groups(fs))) == Ok(Units(out))
            && |Units(out)| == |fs|
            && TextCount(out, AndConnective) == (if |fs| == 0 then 0 else |Groups(fs)| - 1)
            && TextCount(out, OrConnective) == |fs| - |Groups(fs)|
  {
    var groups := Groups(fs);
    SameFiltersAsGroups(fs);
    GroupSizes(fs);
    SumSizesIsFlattenLength(groups);
    RenderGroupsFlattens(ctx, statut, fs, groups);
    var uss := RenderGroups(ctx, statut, fs, groups).value;
    RenderGroupsLengths(ctx, statut, fs, groups);
    JoinedFamilies(uss);
  }

  /** Joining the groups' fragments with `" et "`: the forms of all groups in
      order, one `" et "` between groups, one `" ou "` between forms of a
      group. */
  lemma JoinedFamilies(uss: seq<seq<DismissUnit>>)
    requires forall i :: 0 <= i < |uss| ==> |uss[i]| > 0
    ensures var out := Join(GroupFragments(uss), AndConnective);
            && Units(out) == Flatten(uss)
            && TextCount(out, AndConnective) == (if |uss| == 0 then 0 else |uss| - 1)
            && TextCount(out, OrConnective) == |Flatten(uss)| - |uss|
  {
    GroupFragmentsContents(uss);
    JoinUnits(GroupFragments(uss), AndConnective);
    JoinTextCount(GroupFragments(uss), AndConnective, AndConnective);
    JoinTextCount(GroupFragments(uss), AndConnective, OrConnective);
    SumLengthsIsFlattenLength(uss);
  }

  lemma {:induction false} SumLengthsIsFlattenLength(uss: seq<seq<DismissUnit>>)
    ensures SumLengths(uss) == |Flatten(uss)|
  {
    if |uss| > 0 {
      SumLengthsIsFlattenLength(uss[1..]);
    }
  }

  /** The rendered groups line up with the groups: same count, same sizes. */
  lemma RenderGroupsLengths(ctx: Context, statut: string, fs: seq<Filter>, groups: seq<seq<Filter>>)
    requires RenderGroups(ctx, statut, fs, groups).Ok?
    ensures var uss := RenderGroups(ctx, statut, fs, groups).value;
            |uss| == |groups| && forall i :: 0 <= i < |uss| ==> |uss[i]| == |groups[i]|
  {
    MapEachLengths(FormOf(ctx, statut, fs), groups);
  }

}
