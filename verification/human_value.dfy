/** `human_value`: the display text of a filter's raw value, chosen by the
    kind of its column. Translations, the date parser and the per-field-type
    conversion are opaque functions; the database tables and the instructor's
    groups are explicit sequences. */
module HumanValueFormatter {
  import opened Results
  import opened FilterTypes
  import opened RubyString
  import opened TypeDeChampLookup

  /** An instructor group: its id and its label (nil when unset). */
  datatype GroupeInstructeur = GroupeInstructeur(id: int, groupLabel: Option<string>)

  /** A dossier label: its id and its name (nil when unset). */
  datatype DossierLabel = DossierLabel(id: int, name: Option<string>)

  /** Everything `human_value` reads besides the filter itself:
      - `revisionIds`: the ids of the procedure's revisions;
      - `revisionTypesDeChamp`: the rows of the definition/revision join table;
      - `groupes`: the current instructor's groups, in the order the
        association yields them;
      - `labels`: the label table;
      - `humanAttributeName`: `Dossier.human_attribute_name`, translation key
        to text;
      - `tryParseFormatDate`: `helpers.try_parse_format_date`;
      - `filterToHuman`: `dynamic_type.filter_to_human` of a definition. */
  datatype Context = Context(
    revisionIds: seq<int>,
    revisionTypesDeChamp: seq<RevisionTypeDeChamp>,
    groupes: seq<GroupeInstructeur>,
    labels: seq<DossierLabel>,
    humanAttributeName: string -> string,
    tryParseFormatDate: string -> string,
    filterToHuman: (TypeDeChamp, string) -> string)

  /** The dossier state value that has its own instructor-facing wording. */
  const PendingCorrection: string := "pending_correction"

  /** The translation key used for `PendingCorrection`. */
  const PendingCorrectionKey: string := "pending_correction.for_instructeur"

  /** The prefix of the translation key of every other state value. */
  const StatePrefix: string := "state."

  /** The translation key chosen for a dossier state value. */
  function StateKey(raw: string): (key: string)
    ensures key == StatePrefix + raw <==> raw != PendingCorrection
    ensures raw == PendingCorrection ==> key == PendingCorrectionKey
  {
    if raw == PendingCorrection then
      assert PendingCorrectionKey[0] != (StatePrefix + raw)[0];
      PendingCorrectionKey
    else StatePrefix + raw
  }

  /** Distinct state values never share a translation key; in particular
      `"pending_correction"` never reads the generic
      `state.pending_correction` key. */
  lemma StateKeyInjective(a: string, b: string)
    requires a != b
    ensures StateKey(a) != StateKey(b)
  {
    if a != PendingCorrection && b != PendingCorrection {
      assert (StatePrefix + a)[|StatePrefix|..] == a;
      assert (StatePrefix + b)[|StatePrefix|..] == b;
    } else if a == PendingCorrection {
      assert StateKey(a)[0] != StateKey(b)[0];
    } else {
      assert StateKey(a)[0] != StateKey(b)[0];
    }
  }

  /** The group lookup of the `groupe_instructeur` branch: the first of the
      instructor's groups whose id is `raw.to_i`. */
  function FindGroupe(groupes: seq<GroupeInstructeur>, id: int): (r: Option<GroupeInstructeur>)
    ensures r.None? <==> forall i :: 0 <= i < |groupes| ==> groupes[i].id != id
    ensures forall i :: 0 <= i < |groupes| && groupes[i].id == id
              && (forall j :: 0 <= j < i ==> groupes[j].id != id)
              ==> r == Some(groupes[i])
  {
    FindFirst(groupes, (g: GroupeInstructeur) => g.id == id)
  }

  /** `Label.find(raw)` for a non-blank raw value: the label whose id is
      the raw value cast to an integer. */
  function FindLabel(labels: seq<DossierLabel>, id: int): (r: Option<DossierLabel>)
    ensures r.None? <==> forall i :: 0 <= i < |labels| ==> labels[i].id != id
    ensures forall i :: 0 <= i < |labels| && labels[i].id == id
              && (forall j :: 0 <= j < i ==> labels[j].id != id)
              ==> r == Some(labels[i])
  {
    FindFirst(labels, (l: DossierLabel) => l.id == id)
  }

  /** `human_value(filter)`. The branches are tried in source order; only two
      of them can raise: a field-backed column whose definition is not
      attached to the procedure, and a label id `Label.find` does not know. */
  function HumanValue(ctx: Context, f: Filter): (r: Result<string, RenderError>)
    ensures r.Err? ==> f.column.kind.TypeDeChampColumn? || f.column.kind.DossierLabelsColumn?
    ensures r.Err? && f.column.kind.TypeDeChampColumn? ==>
              r.error == TypeDeChampNotFound(f.column.kind.stableId)
    ensures r.Err? && !f.column.kind.TypeDeChampColumn? ==> r.error == LabelNotFound(f.value)
  {
    var column, raw := f.column, f.value;
    match column.kind
    case TypeDeChampColumn(stableId) =>
      (match FindTypeDeChamp(ctx.revisionTypesDeChamp, ctx.revisionIds, stableId)
       case Some(d) => Ok(ctx.filterToHuman(d, raw))
       case None => Err(TypeDeChampNotFound(stableId)))
    case DossierStateColumn =>
      Ok(ctx.humanAttributeName(StateKey(raw)))
    case GroupeInstructeurColumn =>
      (match FindGroupe(ctx.groupes, ToI(raw))
       case Some(g) => Ok(g.groupLabel.GetOr(raw))
       case None => Ok(raw))
    case DossierLabelsColumn =>
      if IsBlank(raw) then Err(LabelNotFound(raw))
      else
        (match FindLabel(ctx.labels, ToI(raw))
         case Some(l) => Ok(l.name.GetOr(raw))
         case None => Err(LabelNotFound(raw)))
    case OtherColumn =>
      if column.valueType == DateType then Ok(ctx.tryParseFormatDate(raw)) else Ok(raw)
  }

  /** Formatting raises exactly for a field-backed column with no definition
      attached to the procedure, and for a label id that matches no label. */
  lemma HumanValueRaises(ctx: Context, f: Filter)
    ensures HumanValue(ctx, f).Err? <==>
              (f.column.kind.TypeDeChampColumn?
               && forall i :: 0 <= i < |ctx.revisionTypesDeChamp| ==>
                    !Attached(ctx.revisionTypesDeChamp[i], ctx.revisionIds, f.column.kind.stableId))
              || (f.column.kind.DossierLabelsColumn?
                  && (IsBlank(f.value) || forall i :: 0 <= i < |ctx.labels| ==> ctx.labels[i].id != ToI(f.value)))
  {
    match f.column.kind
    case TypeDeChampColumn(stableId) =>
      assert HumanValue(ctx, f).Err? <==>
               FindTypeDeChamp(ctx.revisionTypesDeChamp, ctx.revisionIds, stableId).None?;
    case DossierLabelsColumn =>
      LabelBranch(ctx, f);
    case _ =>
  }

  /** A field-backed column shows its definition's own conversion of the raw
      value, for a definition attached to the procedure with the column's
      stable id and created no earlier than any other such definition; this
      holds whatever the column's value type, `"date"` included. */
  lemma HumanValueOfTypeDeChamp(ctx: Context, f: Filter)
    requires f.column.kind.TypeDeChampColumn?
    requires exists i :: 0 <= i < |ctx.revisionTypesDeChamp|
               && Attached(ctx.revisionTypesDeChamp[i], ctx.revisionIds, f.column.kind.stableId)
    ensures exists d: TypeDeChamp ::
              && HumanValue(ctx, f) == Ok(ctx.filterToHuman(d, f.value))
              && d.stableId == f.column.kind.stableId
              && (exists i :: 0 <= i < |ctx.revisionTypesDeChamp|
                   && ctx.revisionTypesDeChamp[i].revisionId in ctx.revisionIds
                   && ctx.revisionTypesDeChamp[i].typeDeChamp == d)
              && forall i :: (0 <= i < |ctx.revisionTypesDeChamp|
                                && Attached(ctx.revisionTypesDeChamp[i], ctx.revisionIds, f.column.kind.stableId))
                             ==> ctx.revisionTypesDeChamp[i].typeDeChamp.createdAt <= d.createdAt
  {
    var d := FindTypeDeChamp(ctx.revisionTypesDeChamp, ctx.revisionIds, f.column.kind.stableId).value;
    assert HumanValue(ctx, f) == Ok(ctx.filterToHuman(d, f.value));
  }

  /** A dossier state shows the translation of `state.<raw>`, except
      `"pending_correction"`, which shows the instructor wording of the
      `pending_correction.for_instructeur` key. */
  lemma HumanValueOfDossierState(ctx: Context, f: Filter)
    requires f.column.kind.DossierStateColumn?
    ensures f.value == PendingCorrection ==>
              HumanValue(ctx, f) == Ok(ctx.humanAttributeName(PendingCorrectionKey))
    ensures f.value != PendingCorrection ==>
              HumanValue(ctx, f) == Ok(ctx.humanAttributeName(StatePrefix + f.value))
  {
  }

  /** A group column shows the label of the first of the instructor's groups
      whose id is `raw.to_i`, and the raw value when there is no such group
      or it has no label. */
  lemma HumanValueOfGroupe(ctx: Context, f: Filter)
    requires f.column.kind.GroupeInstructeurColumn?
    ensures (forall i :: 0 <= i < |ctx.groupes| ==> ctx.groupes[i].id != ToI(f.value)) ==>
              HumanValue(ctx, f) == Ok(f.value)
    ensures forall i :: (0 <= i < |ctx.groupes| && ctx.groupes[i].id == ToI(f.value)
                         && forall j :: 0 <= j < i ==> ctx.groupes[j].id != ToI(f.value)) ==>
              HumanValue(ctx, f) == Ok(if ctx.groupes[i].groupLabel.Some?
                                       then ctx.groupes[i].groupLabel.value else f.value)
  {
    GroupeBranch(ctx, f);
    var n := ToI(f.value);
    forall i | 0 <= i < |ctx.groupes| && ctx.groupes[i].id == n
                 && (forall j :: 0 <= j < i ==> ctx.groupes[j].id != n)
      ensures FindGroupe(ctx.groupes, n) == Some(ctx.groupes[i])
    {
    }
  }

  /** The group branch of `HumanValue`, on its own. */
  lemma GroupeBranch(ctx: Context, f: Filter)
    requires f.column.kind.GroupeInstructeurColumn?
    ensures HumanValue(ctx, f)
            == match FindGroupe(ctx.groupes, ToI(f.value))
               case Some(g) => Ok(g.groupLabel.GetOr(f.value))
               case None => Ok(f.value)
  {
    assert f.column.kind == GroupeInstructeurColumn;
  }

  /** A value that is not a number (`to_i` yields 0) matches no group unless
      one has id 0, and then shows unchanged. */
  lemma NonNumericGroupeShowsRawValue(ctx: Context, f: Filter)
    requires f.column.kind.GroupeInstructeurColumn?
    requires !StartsWithNumber(f.value)
    requires forall i :: 0 <= i < |ctx.groupes| ==> ctx.groupes[i].id != 0
    ensures HumanValue(ctx, f) == Ok(f.value)
  {
    NonNumericToIIsZero(f.value);
    HumanValueOfGroupe(ctx, f);
  }

  /** A label column shows the name of the label `Label.find` returns (the
      raw value when it has no name). It raises when there is none, and for
      a blank raw value, which the id cast turns into nil. */
  lemma HumanValueOfLabel(ctx: Context, f: Filter)
    requires f.column.kind.DossierLabelsColumn?
    ensures IsBlank(f.value) ==> HumanValue(ctx, f) == Err(LabelNotFound(f.value))
    ensures (forall i :: 0 <= i < |ctx.labels| ==> ctx.labels[i].id != ToI(f.value)) ==>
              HumanValue(ctx, f) == Err(LabelNotFound(f.value))
    ensures !IsBlank(f.value) ==>
              forall i :: (0 <= i < |ctx.labels| && ctx.labels[i].id == ToI(f.value)
                           && forall j :: 0 <= j < i ==> ctx.labels[j].id != ToI(f.value)) ==>
                HumanValue(ctx, f) == Ok(if ctx.labels[i].name.Some?
                                         then ctx.labels[i].name.value else f.value)
  {
    var id := ToI(f.value);
    LabelBranch(ctx, f);
    if !IsBlank(f.value) {
      forall i | 0 <= i < |ctx.labels| && ctx.labels[i].id == id
                 && forall j :: 0 <= j < i ==> ctx.labels[j].id != id
        ensures HumanValue(ctx, f) == Ok(if ctx.labels[i].name.Some?
                                         then ctx.labels[i].name.value else f.value)
      {
        assert FindLabel(ctx.labels, id) == Some(ctx.labels[i]);
      }
    }
  }

  /** The label branch of `HumanValue`, on its own. */
  lemma LabelBranch(ctx: Context, f: Filter)
    requires f.column.kind.DossierLabelsColumn?
    ensures HumanValue(ctx, f)
            == if IsBlank(f.value) then Err(LabelNotFound(f.value))
               else match FindLabel(ctx.labels, ToI(f.value))
                    case Some(l) => Ok(l.name.GetOr(f.value))
                    case None => Err(LabelNotFound(f.value))
  {
    assert f.column.kind == DossierLabelsColumn;
  }

  /** An empty label filter raises even when a label has id 0, the id
      `"".to_i` would give. */
  lemma EmptyLabelIdRaises(ctx: Context, f: Filter)
    requires f.column.kind.DossierLabelsColumn? && f.value == ""
    ensures HumanValue(ctx, f) == Err(LabelNotFound(""))
  {
    assert IsBlank(f.value);
  }

  /** Any other column: a `"date"` column shows what the date helper makes of
      the raw value; every other column shows the raw value unchanged. */
  lemma HumanValueOfOtherColumn(ctx: Context, f: Filter)
    requires f.column.kind.OtherColumn?
    ensures f.column.valueType == DateType ==> HumanValue(ctx, f) == Ok(ctx.tryParseFormatDate(f.value))
    ensures f.column.valueType != DateType ==> HumanValue(ctx, f) == Ok(f.value)
  {
  }
}
