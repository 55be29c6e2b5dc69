/** `find_type_de_champ`: the field definition a field-backed column stands
    for, chosen across every revision of the procedure, newest first. The
    database is replaced by the rows of the join table it queries. */
module TypeDeChampLookup {
  import opened Results

  /** A field definition (`TypeDeChamp`): its own id, the stable id it keeps
      across revisions, its type and its creation time. */
  datatype TypeDeChamp = TypeDeChamp(id: int, stableId: int, typeChamp: string, createdAt: int)

  /** A row of `revision_types_de_champ`: one definition attached to one
      revision. */
  datatype RevisionTypeDeChamp = RevisionTypeDeChamp(revisionId: int, typeDeChamp: TypeDeChamp)

  /** True when `row` attaches a definition with `stableId` to one of the
      procedure's revisions: the join, the `where` on revision ids and the
      `find_by(stable_id:)` condition together. */
  predicate Attached(row: RevisionTypeDeChamp, revisionIds: seq<int>, stableId: int) {
    row.revisionId in revisionIds && row.typeDeChamp.stableId == stableId
  }

  /** The definitions of the joined rows that meet the query's conditions, in
      row order. */
  function Candidates(rows: seq<RevisionTypeDeChamp>, revisionIds: seq<int>, stableId: int)
    : (cs: seq<TypeDeChamp>)
    ensures forall d :: d in cs <==>
              exists i :: 0 <= i < |rows| && Attached(rows[i], revisionIds, stableId)
                          && rows[i].typeDeChamp == d
  {
    if |rows| == 0 then []
    else
      var rest := Candidates(rows[1..], revisionIds, stableId);
      assert forall i :: 1 <= i < |rows| ==> rows[i] == rows[1..][i - 1];
      if Attached(rows[0], revisionIds, stableId) then [rows[0].typeDeChamp] + rest else rest
  }

  /** The first definition with the greatest `created_at`: what
      `order(created_at: :desc)` puts first. The database leaves ties in no
      particular order; this model takes the earliest row. */
  function Latest(cs: seq<TypeDeChamp>): (r: Option<TypeDeChamp>)
    ensures r.None? <==> |cs| == 0
    ensures r.Some? ==> r.value in cs
    ensures r.Some? ==> forall c :: c in cs ==> c.createdAt <= r.value.createdAt
  {
    if |cs| == 0 then None
    else
      match Latest(cs[1..])
      case None => Some(cs[0])
      case Some(d) => if cs[0].createdAt >= d.createdAt then Some(cs[0]) else Some(d)
  }

  /** `find_type_de_champ(stable_id)`: among the definitions attached to any
      revision of the procedure and carrying `stableId`, one created last;
      `None` (Ruby's nil) when there is none. */
  function FindTypeDeChamp(rows: seq<RevisionTypeDeChamp>, revisionIds: seq<int>, stableId: int)
    : (r: Option<TypeDeChamp>)
    ensures r.None? <==> forall i :: 0 <= i < |rows| ==> !Attached(rows[i], revisionIds, stableId)
    ensures r.Some? ==>
              r.value.stableId == stableId
              && (exists i :: 0 <= i < |rows| && Attached(rows[i], revisionIds, stableId)
                              && rows[i].typeDeChamp == r.value)
              && forall i :: 0 <= i < |rows| && Attached(rows[i], revisionIds, stableId) ==>
                               rows[i].typeDeChamp.createdAt <= r.value.createdAt
  {
    var cs := Candidates(rows, revisionIds, stableId);
    assert |cs| > 0 ==> cs[0] in cs;
    assert forall i :: 0 <= i < |rows| && Attached(rows[i], revisionIds, stableId) ==>
             rows[i].typeDeChamp in cs;
    Latest(cs)
  }

  /** When the attached definitions with `stableId` have pairwise distinct
      creation times, the answer does not depend on how the database orders
      the rows: any attached definition that is at least as new as all the
      others is the one `FindTypeDeChamp` returns. */
  lemma FindTypeDeChampUnique(rows: seq<RevisionTypeDeChamp>, revisionIds: seq<int>, stableId: int, k: int)
    requires forall i, j :: 0 <= i < |rows| && 0 <= j < |rows|
               && Attached(rows[i], revisionIds, stableId) && Attached(rows[j], revisionIds, stableId)
               && rows[i].typeDeChamp != rows[j].typeDeChamp
               ==> rows[i].typeDeChamp.createdAt != rows[j].typeDeChamp.createdAt
    requires 0 <= k < |rows| && Attached(rows[k], revisionIds, stableId)
    requires forall i :: 0 <= i < |rows| && Attached(rows[i], revisionIds, stableId) ==>
               rows[i].typeDeChamp.createdAt <= rows[k].typeDeChamp.createdAt
    ensures FindTypeDeChamp(rows, revisionIds, stableId) == Some(rows[k].typeDeChamp)
  {
    var r := FindTypeDeChamp(rows, revisionIds, stableId);
    var i :| 0 <= i < |rows| && Attached(rows[i], revisionIds, stableId) && rows[i].typeDeChamp == r.value;
    assert rows[i].typeDeChamp.createdAt == rows[k].typeDeChamp.createdAt;
  }
}
