/**
 One transaction's user state: overrides that inherit, clear or set a value, and optimistic edits
 that name the version they were made against.
 */
module UserState {
  import opened Outcomes
  import opened JsonText

  datatype ReviewStatus = Unreviewed | NeedsReview | Confirmed | Ignored

  /** A patch of a nullable override; roles and exclusions have no Clear. */
  datatype Patch<+T> = Inherit | Clear | Set(value: T)

  datatype Override<+T> = Override(enabled: bool, value: Option<T>)

  datatype State = State(
    category: Override<Text>,
    merchant: Override<Text>,
    role: Override<Text>,
    excluded: Option<bool>,
    notes: Option<Text>,
    review: ReviewStatus,
    version: int)

  type ClearlessPatch<T> = p: Patch<T> | !p.Clear? witness Inherit

  datatype Edit = Edit(
    expectedVersion: int,
    category: Option<Patch<Text>>,
    merchant: Option<Patch<Text>>,
    role: Option<ClearlessPatch<Text>>,
    excluded: Option<ClearlessPatch<bool>>,
    notes: Option<Option<Text>>,
    review: Option<ReviewStatus>,
    tagIds: Option<seq<Text>>)

  /** What an edit may refer to in its workspace. */
  datatype References = References(
    categories: set<Text>, merchants: set<Text>, tags: set<Text>, canonicalTag: Text -> bool)

  datatype EditError =
    | NotFound | VersionConflict(actual: int) | BadCategory | BadMerchant | BadTagIds | BadTag | ConstraintViolation

  const MAX_TAGS: int := 50
  const MAX_NOTES: int := 4_000

  function Version(state: Option<State>): int {
    if state.Some? then state.value.version else 0
  }

  /** resolveNullableOverride, and resolveOverride where the patch has no Clear. */
  function Resolve<T>(patch: Option<Patch<T>>, current: Override<T>): Override<T> {
    match patch
    case None => current
    case Some(Inherit) => Override(false, None)
    case Some(Clear) => Override(true, None)
    case Some(Set(value)) => Override(true, Some(value))
  }

  const NO_OVERRIDE: Override<Text> := Override(false, None)

  function Blank(): State {
    State(NO_OVERRIDE, NO_OVERRIDE, NO_OVERRIDE, None, None, Unreviewed, 0)
  }

  function Current(state: Option<State>): State {
    if state.Some? then state.value else Blank()
  }

  /** resolveState; a missing row reads as no overrides. */
  function ResolveState(state: Option<State>, edit: Edit): State {
    var row := Current(state);
    var exclusion := Resolve(edit.excluded, Override(row.excluded.Some?, row.excluded));
    State(
      Resolve(edit.category, row.category),
      Resolve(edit.merchant, row.merchant),
      Resolve(edit.role, row.role),
      if exclusion.enabled then exclusion.value else None,
      if edit.notes.None? then row.notes else edit.notes.value,
      if edit.review.Some? then edit.review.value else row.review,
      row.version + 1)
  }

  predicate Distinct(ids: seq<Text>) {
    forall i, j :: 0 <= i < j < |ids| ==> ids[i] != ids[j]
  }

  /** validateReferences: the resulting overrides and the requested tags must be visible. */
  function ReferenceError(references: References, edit: Edit, resolved: State): Option<EditError> {
    if resolved.category.enabled && resolved.category.value.Some?
       && resolved.category.value.value !in references.categories
    then Some(BadCategory)
    else if resolved.merchant.enabled && resolved.merchant.value.Some?
            && resolved.merchant.value.value !in references.merchants
    then Some(BadMerchant)
    else if edit.tagIds.None? then None
    else
      var ids := edit.tagIds.value;
      if |ids| > MAX_TAGS || !Distinct(ids) || exists i :: 0 <= i < |ids| && !references.canonicalTag(ids[i])
      then Some(BadTagIds)
      else if exists i :: 0 <= i < |ids| && ids[i] !in references.tags then Some(BadTag)
      else None
  }

  /** A disabled override holds null, an enabled role does not, notes are short. */
  predicate RowCheck(state: State) {
    && (state.category.enabled || state.category.value.None?)
    && (state.merchant.enabled || state.merchant.value.None?)
    && (state.role.enabled <==> state.role.value.Some?)
    && (state.notes.Some? ==> |state.notes.value| <= MAX_NOTES)
    && state.version > 0
  }

  /** The row an edit leaves, or why it is refused. */
  function Edited(references: References, state: Option<State>, edit: Edit): Result<State, EditError> {
    if Version(state) != edit.expectedVersion then Err(VersionConflict(Version(state)))
    else
      var resolved := ResolveState(state, edit);
      var error := ReferenceError(references, edit, resolved);
      if error.Some? then Err(error.value)
      else if !RowCheck(resolved) then Err(ConstraintViolation)
      else Ok(resolved)
  }

  /** An accepted edit moves the version on by one and keeps the row constraints; a stale one is refused. */
  lemma EditAdvances(references: References, state: Option<State>, edit: Edit)
    ensures Edited(references, state, edit).Ok? ==>
              && edit.expectedVersion == Version(state)
              && Edited(references, state, edit).value.version == Version(state) + 1
              && RowCheck(Edited(references, state, edit).value)
  {
  }

  /** The only way a resolved row breaks a constraint is its notes: patches keep the override rules. */
  lemma OnlyNotesViolate(state: Option<State>, edit: Edit)
    requires state.Some? ==> RowCheck(state.value)
    ensures RowCheck(ResolveState(state, edit)) <==>
            edit.notes.None? || edit.notes.value.None? || |edit.notes.value.value| <= MAX_NOTES
  {
  }

  /** What a field holds after an edit depends on its own patch alone; no patch leaves it. */
  lemma EditTouchesOnlyItsPatches(references: References, state: Option<State>, edit: Edit)
    requires Edited(references, state, edit).Ok?
    ensures var after := Edited(references, state, edit).value;
            && (edit.category.None? ==> after.category == Current(state).category)
            && (edit.merchant.None? ==> after.merchant == Current(state).merchant)
            && (edit.role.None? ==> after.role == Current(state).role)
            && (edit.excluded.None? ==> after.excluded == Current(state).excluded)
            && (edit.notes.None? ==> after.notes == Current(state).notes)
            && (edit.review.None? ==> after.review == Current(state).review)
  {
  }

  // ---- rows that other operations write ----

  /** The row a confirmed replacement gives the successor. */
  function Copied(predecessor: State): State {
    predecessor.(version := 1)
  }

  /** The merge's update of one row. */
  function Redirected(state: State, source: Text, target: Text): State {
    if state.merchant.value == Some(source)
    then state.(merchant := Override(state.merchant.enabled, Some(target)), version := state.version + 1)
    else state
  }

}
