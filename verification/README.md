# Filter buttons of the instructor dossier list

A Dafny model of `Instructeurs::FilterButtonsComponent` from demarches-simplifiees.fr.
The component renders the active column filters of an instructor's dossier list.
Each filter is a pair of a column and a raw value, and each gets a "dismiss" form.
Submitting that form re-sends every other filter and the current `statut` tab.
Filters are grouped by column: forms of one column are joined with `" ou "`, groups with `" et "`.
Each button reads `<column label, truncated to 50> : <human value>`.
The human value depends on the kind of column:

- a form-field column uses the newest definition with its stable id across the procedure's revisions;
- a dossier state uses a translation key;
- an instructor group uses the group's label;
- a dossier label uses the label's name;
- a date column goes through the date helper;
- any other column shows the raw value.

Modules, one per concept:

- `Results` (`results.dfy`): `Option`, `Result` and `FindFirst` (Ruby's `Enumerable#find`).
- `Collections` (`collections.dfy`): `flatten`, and `map` with a block that may raise (`MapResult`). The first raise aborts the whole map.
- `RubyString` (`ruby_string.dfy`): `String#to_i`, `Integer#to_s` and Rails' `String#truncate`.
- `FilterTypes` (`filter_types.dfy`): columns, filters, the two errors rendering can raise, and filter equality.
- `TypeDeChampLookup` (`type_de_champ_lookup.dfy`): `find_type_de_champ`.
- `HumanValueFormatter` (`human_value.dfy`): `human_value` and its collaborators.
- `Grouping` (`grouping.dfy`): `group_by { _1.column.id }.values`. It is modelled twice: once operationally, as Ruby builds the hash, and once as a reference definition. A lemma proves the two agree.
- `FilterButtons` (`filter_buttons.dfy`): `other_hidden_fields`, `button_content`, `filter_form`, `filters_by_family` and `call`.

A form is modelled as its hidden fields, each a (name, value) pair, plus its button text.
The rendered fragment is a sequence of forms and connective texts.
`ReadBack` reads a form's fields back into the (column id, raw value) list and the `statut` the form sends.

Where the code differs from what one might expect, the model follows the code:

- Dismissing a filter drops every filter equal to it, not one occurrence (`RejectDropsEveryCopy`).
- A long label becomes its first 47 characters followed by `"..."`. It is not hard-cut at 50 (`ButtonContentText`).
- A missing label or field definition raises instead of falling back to the raw value. Both cases are `Err` arms of `HumanValue`. So does a blank label id, which the id cast turns into nil.
- Flattening the groups is a permutation of the input, not the input itself. With interleaved columns the order changes (`FlattenReordersInterleavedColumns`). Only the order within a group is kept.

## Model

| member | source | states |
|---|---|---|
| `Grouping.GroupByMatchesReference` | app/components/instructeurs/filter_buttons_component.rb:17-19 | `group_by` builds one entry per column id, in order of first appearance. Each entry holds that column's filters in input order. |
| `Grouping.GroupBy` | app/components/instructeurs/filter_buttons_component.rb:18 | The hash `group_by` builds has at most one entry per filter. Every entry is non-empty, and every filter in an entry has the entry's column id as its key. |
| `Grouping.ColumnIdsFirstAppearance` | app/components/instructeurs/filter_buttons_component.rb:18-19 | Group keys follow first appearance: for i < j, some filter on the i-th key comes before every filter on the j-th key. |
| `Grouping.ColumnIdsDistinct` | app/components/instructeurs/filter_buttons_component.rb:18-19 | No column id keys two groups. |
| `Grouping.ColumnIdsCover` | app/components/instructeurs/filter_buttons_component.rb:18-19 | Every column id of the input keys a group, and nothing else does. |
| `Grouping.OnColumnMembers` | app/components/instructeurs/filter_buttons_component.rb:18-19 | A group holds exactly the input's filters on its column, and it is non-empty exactly when that column appears. |
| `Grouping.GroupsArePermutation` | app/components/instructeurs/filter_buttons_component.rb:17-20 | The groups together hold exactly the input filters with their multiplicities, so their total length is the input length. |
| `Grouping.GroupSizes` | app/components/instructeurs/filter_buttons_component.rb:17-20 | The group sizes sum to the number of filters, and no group is empty. |
| `Grouping.FlattenReordersInterleavedColumns` | app/components/instructeurs/filter_buttons_component.rb:17-20 | For filters on columns a, b, a, the groups are [[a1, a2], [b1]]. Concatenating them does not give back the input. |
| `FilterButtons.Reject` | app/components/instructeurs/filter_buttons_component.rb:36 | The kept filters number the input length minus the number of filters equal to the dismissed one. |
| `FilterButtons.RejectMembers` | app/components/instructeurs/filter_buttons_component.rb:36 | A form keeps exactly the filters not equal (same column id and value) to the dismissed one. |
| `FilterButtons.RejectSingleOccurrence` | app/components/instructeurs/filter_buttons_component.rb:36 | If the dismissed filter occurs once, at index i, the kept list is the input without index i, other filters in order. |
| `FilterButtons.RejectWithoutDuplicates` | app/components/instructeurs/filter_buttons_component.rb:36 | With no duplicate filters, each form keeps exactly n - 1 filters. |
| `FilterButtons.RejectDropsEveryCopy` | app/components/instructeurs/filter_buttons_component.rb:36 | A filter present twice is dropped twice. |
| `FilterButtons.RejectAppend` | app/components/instructeurs/filter_buttons_component.rb:36 | Rejecting from a concatenation rejects from each part. The kept filters keep their order and multiplicity: `reject` only deletes. |
| `FilterButtons.HiddenFieldsContents` | app/components/instructeurs/filter_buttons_component.rb:36-41 | Each kept filter gives a `filters[][id]` field with its column id, then a `filters[][filter]` field with its raw value, in kept order. |
| `FilterButtons.OtherHiddenFields` | app/components/instructeurs/filter_buttons_component.rb:35-42 | `other_hidden_fields` gives two fields per kept filter. Read back as id/value pairs, they are exactly the kept filters' (column id, raw value) pairs, in order. |
| `FilterButtons.FilterForm` | app/components/instructeurs/filter_buttons_component.rb:24-33 | A form renders exactly when the filter's human value does, and raises the same error otherwise. Its first field is the empty `filters[]` marker and its last is `statut`, unchanged. It has two fields per kept filter plus those two. Its button text is `button_content(filter)` (line 30). |
| `FilterButtons.FilterFormOfSoleFilter` | app/components/instructeurs/filter_buttons_component.rb:27-29 | Dismissing the only filter still submits the empty marker, followed only by `statut`. |
| `FilterButtons.FilterFormResubmitsOthers` | app/components/instructeurs/filter_buttons_component.rb:26-41 | Read back, a form submits every filter not equal to the dismissed one, in order, as (column id, raw value) pairs. It also submits `statut` unchanged. |
| `FilterButtons.ButtonContent` | app/components/instructeurs/filter_buttons_component.rb:44-46 | A button renders exactly when the human value does, and raises the same error otherwise. |
| `FilterButtons.ButtonContentText` | app/components/instructeurs/filter_buttons_component.rb:45 | A label of at most 50 characters shows whole. A longer one shows as its first 47 characters plus `"..."`, 50 in all. Then come `" : "` and the human value. |
| `RubyString.Truncate` | app/components/instructeurs/filter_buttons_component.rb:45 | A string that fits is unchanged. A longer one becomes exactly the limit long, and strictly shorter than before. The result never exceeds the limit (or 3). |
| `RubyString.TruncateKeepsPrefix` | app/components/instructeurs/filter_buttons_component.rb:45 | A truncated label is the original's first limit - 3 characters followed by `"..."`. |
| `RubyString.TruncateIdempotent` | app/components/instructeurs/filter_buttons_component.rb:45 | Truncating twice is truncating once. |
| `FilterButtons.RenderForms` | app/components/instructeurs/filter_buttons_component.rb:20 | A successful rendering of a group gives exactly one form per filter. |
| `FilterButtons.RenderFormsSucceeds` | app/components/instructeurs/filter_buttons_component.rb:20 | Rendering the forms of a list succeeds exactly when every filter's human value does. |
| `FilterButtons.RenderFormsContents` | app/components/instructeurs/filter_buttons_component.rb:20 | The i-th rendered form is the dismiss form of the i-th filter. |
| `FilterButtons.RenderGroupsLengths` | app/components/instructeurs/filter_buttons_component.rb:20 | Rendering group by group gives one list of forms per group, each as long as its group. |
| `Collections.MapResultSucceeds` | app/components/instructeurs/filter_buttons_component.rb:20 | A `map` whose block may raise succeeds exactly when the block succeeds on every element. |
| `Collections.MapResultContents` | app/components/instructeurs/filter_buttons_component.rb:20 | A successful `map` holds the block's result for each element, in order. |
| `Collections.MapResultFirstError` | app/components/instructeurs/filter_buttons_component.rb:20 | A failed `map` raises what the block raised on the first element it fails on. All earlier elements succeeded. |
| `Collections.MapResultFlatten` | app/components/instructeurs/filter_buttons_component.rb:20 | Mapping group by group and then flattening is the same as mapping the flattened groups. Results and first error agree. |
| `Collections.MapResult` | app/components/instructeurs/filter_buttons_component.rb:20 | A `map` whose block may raise gives one result per element when it succeeds. Its other behaviour is stated by `MapResultSucceeds`, `MapResultContents` and `MapResultFirstError`. |
| `FilterButtons.RenderFormsFirstError` | app/components/instructeurs/filter_buttons_component.rb:20 | A failed rendering raises the error of the first filter whose human value raises. |
| `FilterButtons.RenderGroupsFlattens` | app/components/instructeurs/filter_buttons_component.rb:20 | Rendering group by group gives the same forms, and the same first error, as rendering the concatenated groups. |
| `FilterButtons.GroupFragmentContents` | app/components/instructeurs/filter_buttons_component.rb:21 | A group's fragment holds its forms in order. It has one `" ou "` between each two of them and no `" et "`. |
| `FilterButtons.JoinUnits` | app/components/instructeurs/filter_buttons_component.rb:11 | `safe_join` keeps every part's forms, in order. |
| `FilterButtons.JoinTextCount` | app/components/instructeurs/filter_buttons_component.rb:11 | `safe_join` adds exactly one separator between each two neighbouring parts. |
| `FilterButtons.Join` | app/components/instructeurs/filter_buttons_component.rb:11 | `safe_join` gives an empty fragment for no parts and otherwise starts with the first part. `SplitJoin` and `JoinSplit` prove it is undone by `Split`. |
| `FilterButtons.Split` | app/components/instructeurs/filter_buttons_component.rb:11 | Splitting at a separator gives at least one piece, and no piece holds the separator. |
| `FilterButtons.SplitJoin` | app/components/instructeurs/filter_buttons_component.rb:11 | Splitting a `safe_join` at its separator gives back the parts when no part holds the separator. |
| `FilterButtons.JoinSplit` | app/components/instructeurs/filter_buttons_component.rb:11 | Joining the pieces of a split at the same separator gives back the fragment. |
| `FilterButtons.JoinedFamilies` | app/components/instructeurs/filter_buttons_component.rb:11 | Joining the groups' fragments with `" et "` keeps all forms in group order. It puts \|groups\| - 1 `" et "` between groups and one `" ou "` between each two forms of a group. |
| `FilterButtons.CallSucceeds` | app/components/instructeurs/filter_buttons_component.rb:10-12 | `call` renders exactly when every filter's human value does. |
| `FilterButtons.CallLayout` | app/components/instructeurs/filter_buttons_component.rb:10-22 | A rendered `call` holds one form per filter, namely the forms of the groups' filters in group order. It has \|groups\| - 1 `" et "` and n - \|groups\| `" ou "`. |
| `FilterButtons.CallFirstError` | app/components/instructeurs/filter_buttons_component.rb:10-22 | A failed `call` raises the error of the first failing filter, taken group by group. |
| `FilterButtons.FiltersByFamily` | app/components/instructeurs/filter_buttons_component.rb:16-22 | `filters_by_family` gives one part per group. When it raises, the error is the human-value error of one of the filters. |
| `FilterButtons.GroupsFirstError` | app/components/instructeurs/filter_buttons_component.rb:16-20 | Rendering the groups raises only an error that some filter's human value raises. |
| `FilterButtons.FamiliesFreeOfAnd` | app/components/instructeurs/filter_buttons_component.rb:16-22 | When `filters_by_family` succeeds, none of its parts holds `" et "`, and there is at least one part when there is a filter. |
| `FilterButtons.FamilySplitsIntoForms` | app/components/instructeurs/filter_buttons_component.rb:20-21 | When `filters_by_family` succeeds, each of its parts, split at `" ou "`, is its group's forms one by one. So `" ou "` sits only between two forms of one column. |
| `FilterButtons.Call` | app/components/instructeurs/filter_buttons_component.rb:10-12 | For at least one filter, the output of `call` split at `" et "` gives back exactly the parts of `filters_by_family`. So `" et "` sits only between groups. When it raises, the error is the human-value error of one of the filters. |
| `HumanValueFormatter.HumanValue` | app/components/instructeurs/filter_buttons_component.rb:48-68 | Only a field column or a label column can raise. A field column raises `TypeDeChampNotFound` with its stable id. A label column raises `LabelNotFound` with the raw value. |
| `HumanValueFormatter.HumanValueRaises` | app/components/instructeurs/filter_buttons_component.rb:48-68 | Formatting raises exactly in two cases: a field column with no definition attached to a revision of the procedure, or a label column whose raw value is blank or whose `to_i` id matches no label. |
| `HumanValueFormatter.HumanValueOfTypeDeChamp` | app/components/instructeurs/filter_buttons_component.rb:51-52 | A field column shows the `filter_to_human` of a definition that has its stable id, is attached to a revision of the procedure, and was created no earlier than any other such definition. This holds even when the column's type is `date`. |
| `HumanValueFormatter.HumanValueOfDossierState` | app/components/instructeurs/filter_buttons_component.rb:53-58 | `"pending_correction"` shows the `pending_correction.for_instructeur` translation. Any other value v shows the `state.v` translation. |
| `HumanValueFormatter.StateKey` | app/components/instructeurs/filter_buttons_component.rb:53-58 | The key is `state.<raw>` exactly when the raw value is not `pending_correction`. That value gets `pending_correction.for_instructeur`. |
| `HumanValueFormatter.StateKeyInjective` | app/components/instructeurs/filter_buttons_component.rb:53-58 | Distinct state values get distinct keys. In particular `pending_correction` never reads `state.pending_correction`. |
| `HumanValueFormatter.FindGroupe` | app/components/instructeurs/filter_buttons_component.rb:60-61 | The group found is the first whose id matches. There is none exactly when no id matches. |
| `HumanValueFormatter.HumanValueOfGroupe` | app/components/instructeurs/filter_buttons_component.rb:59-61 | A group column shows the label of the first of the instructor's groups whose id is `raw.to_i`. It shows the raw value when no group matches or the match has no label. |
| `HumanValueFormatter.NonNumericGroupeShowsRawValue` | app/components/instructeurs/filter_buttons_component.rb:59-61 | A non-numeric value reads as id 0, so with no group of id 0 it shows unchanged. |
| `HumanValueFormatter.FindLabel` | app/components/instructeurs/filter_buttons_component.rb:63 | The label found is the first whose id matches. There is none exactly when no id matches. |
| `HumanValueFormatter.HumanValueOfLabel` | app/components/instructeurs/filter_buttons_component.rb:62-63 | A label column shows the found label's name, or the raw value when that name is nil. It raises `LabelNotFound` when no label matches, and for a blank raw value. |
| `HumanValueFormatter.EmptyLabelIdRaises` | app/components/instructeurs/filter_buttons_component.rb:63 | An empty label filter raises `LabelNotFound` even when a label has id 0, the id `"".to_i` would give. |
| `HumanValueFormatter.HumanValueOfOtherColumn` | app/components/instructeurs/filter_buttons_component.rb:64-67 | Any other column of type `date` shows the date helper's output. Every other column shows the raw value unchanged. |
| `RubyString.ToI` | app/components/instructeurs/filter_buttons_component.rb:61 | `to_i` is non-zero only when the first non-blank character is a digit, or a sign followed by a digit. |
| `RubyString.ToIReadsBackToS` | app/components/instructeurs/filter_buttons_component.rb:61 | `to_i` reads back every integer that `to_s` writes. |
| `RubyString.NonNumericToIIsZero` | app/components/instructeurs/filter_buttons_component.rb:61 | Input that does not start with a number reads as 0. |
| `RubyString.ToIIgnoresTrailingText` | app/components/instructeurs/filter_buttons_component.rb:61 | Text after the digits is ignored, so `"12abc".to_i == 12`. |
| `Results.FindFirst` | app/components/instructeurs/filter_buttons_component.rb:60-61 | `find` returns the first element satisfying the block, or nil when there is none. |
| `TypeDeChampLookup.Candidates` | app/components/instructeurs/filter_buttons_component.rb:72-76 | The candidates are exactly the definitions joined to a revision of the procedure that carry the stable id. |
| `TypeDeChampLookup.Latest` | app/components/instructeurs/filter_buttons_component.rb:75-76 | Taking the first after ordering by `created_at` descending gives a candidate with the greatest creation time. It gives none exactly when there are no candidates. |
| `TypeDeChampLookup.FindTypeDeChamp` | app/components/instructeurs/filter_buttons_component.rb:71-77 | The lookup returns a definition with the stable id, attached to a revision of the procedure, and created no earlier than any other such definition. It returns nil exactly when no such definition exists. |
| `TypeDeChampLookup.FindTypeDeChampUnique` | app/components/instructeurs/filter_buttons_component.rb:71-77 | When creation times are distinct, the result does not depend on row order: it is the unique newest attached definition. |

## Left out

- HTML generation: the form's target (`[:instructeur, procedure_presentation]`), its CSS classes and `safe_join`'s escaping. A form is its hidden fields plus its button text.
- Translations (`Dossier.human_attribute_name`), `helpers.try_parse_format_date` and `dynamic_type.filter_to_human` are opaque functions in `Context`. Their definitions are not part of this model. So whether an unparsable date shows unchanged is up to the helper, and the model does not claim it.
- ActiveRecord queries are replaced by explicit sequences: the join rows and revision ids of `find_type_de_champ`, the label table of `Label.find`, and `current_instructeur.groupe_instructeurs`, passed in as a parameter.
- `FilteredColumn` and the column classes are not part of this model. `filter.label` is taken to be the column's label. Filter `==` is taken to compare column id and raw value. The kind predicates (`type_de_champ?`, `dossier_state?`, `groupe_instructeur?`, `dossier_labels?`) are taken as mutually exclusive.
- `HumanValueFormatter.FindLabel`: `Label.find` casts the raw id with ActiveModel's integer cast. A blank string (empty or whitespace only) casts to nil and raises. Any other string is modelled as `to_i`, matched against integer label ids. Blank is judged with ASCII whitespace, not Unicode `[[:space:]]`.
- `RubyString.ToI`: does not model Ruby's optional `0d` decimal-radix prefix.
- `TypeDeChampLookup.Latest`: the database leaves ties on `created_at` unordered. The model takes the earliest row, and the contract promises only a newest definition.
- Rails' `truncate` options (`separator:`, `omission:`) are not used by the component and are not modelled.
- The Devise registration controller spec and `MailTemplateField` are outside the component and are not modelled.
