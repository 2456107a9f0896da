/** The strict validation layer as the request handler runs it: a loop over the parsed
    actions that stops at the first id unknown to the catalog and otherwise lowers every
    confidence of 1.0 or more to 0.95, in place. */
module StrictValidation {
  import opened Wrappers
  import opened EntityCatalog
  import opened Actions

  /** `for (const id of idsToCheck) if (!validIds.has(id)) ...`: the first id of the list
      that is not in the set, if any. */
  method FindUnknown(idsToCheck: seq<string>, validIds: set<string>) returns (found: Option<string>)
    ensures found == FirstUnknown(idsToCheck, validIds)
  {
    var j := 0;
    while j < |idsToCheck|
      invariant 0 <= j <= |idsToCheck|
      invariant forall k :: 0 <= k < j ==> idsToCheck[k] in validIds
    {
      if idsToCheck[j] !in validIds {
        FirstUnknownAt(idsToCheck, validIds, j);
        return Some(idsToCheck[j]);
      }
      j := j + 1;
    }
    return None;
  }

  ghost predicate ClampedUpTo(current: seq<Action>, original: seq<Action>, i: int) {
    0 <= i <= |current| == |original|
    && (forall k :: 0 <= k < i ==> current[k] == Clamp(original[k]))
    && (forall k :: i <= k < |current| ==> current[k] == original[k])
  }

  lemma ClampStep(current: seq<Action>, original: seq<Action>, i: int)
    requires ClampedUpTo(current, original, i) && i < |current|
    ensures ClampedUpTo(current[i := Clamp(current[i])], original, i + 1)
  {
  }

  lemma ClampedAll(current: seq<Action>, original: seq<Action>)
    requires ClampedUpTo(current, original, |current|)
    ensures current == ClampAll(original)
  {
  }

  lemma ClampedFrame(current: seq<Action>, original: seq<Action>, i: int)
    requires ClampedUpTo(current, original, i)
    ensures forall k :: 0 <= k < |current| ==> current[k] == original[k] || current[k] == Clamp(original[k])
  {
  }

  /** `for (const action of ...) { ... }`: the loop over a present (non-null) list of actions. It
      returns at the first unknown id; otherwise it lowers each over-confident action in
      place just after checking its ids. */
  method CheckActions(validIds: set<string>, actions: array<Action>) returns (r: Result<seq<Action>, string>)
    modifies actions
    ensures r == ValidateAgainst(validIds, old(actions[..]))
    ensures r.Success? ==> actions[..] == r.value
    ensures forall i :: 0 <= i < actions.Length ==>
      actions[i] == old(actions[i]) || actions[i] == Clamp(old(actions[i]))
  {
    ghost var original := actions[..];
    var i := 0;
    while i < actions.Length
      invariant 0 <= i <= actions.Length
      invariant |original| == actions.Length
      invariant ClampedUpTo(actions[..], original, i)
      invariant FirstInvalid(validIds, original[..i]) == None
    {
      var found := FindUnknown(CheckedIds(actions[i]), validIds);
      if found.Some? {
        FirstInvalidStop(validIds, original, i);
        ClampedFrame(actions[..], original, i);
        return Failure(found.value);
      }
      FirstInvalidExtend(validIds, original, i);
      ghost var before := actions[..];
      if actions[i].confidence >= Certain {
        actions[i] := actions[i].(confidence := Capped);
      }
      assert actions[..] == before[i := Clamp(before[i])];
      ClampStep(before, original, i);
      i := i + 1;
    }
    assert original[..i] == original;
    ClampedAll(actions[..], original);
    ClampedFrame(actions[..], original, i);
    return Success(actions[..]);
  }

  /** The strict validation layer: build the valid-id set from the catalog, then run the
      loop over `parsed.actions || []`. `actions` is `parsed.actions`, null when the parsed
      reply has none. On success the response is the parsed payload with this array, as
      mutated, for its actions; on failure the response carries only the offending id. */
  method ValidateInPlace(catalog: Catalog, actions: array?<Action>) returns (r: Result<seq<Action>, string>)
    modifies actions
    ensures actions == null ==> r == ValidateActions(catalog, [])
    ensures actions != null ==> r == ValidateActions(catalog, old(actions[..]))
    ensures actions != null && r.Success? ==> actions[..] == r.value
    ensures actions != null ==>
      forall i :: 0 <= i < actions.Length ==> actions[i] == old(actions[i]) || actions[i] == Clamp(old(actions[i]))
  {
    var validIds := ValidIds(catalog);
    if actions == null {
      ValidateEmpty(catalog);
      return Success([]);
    }
    r := CheckActions(validIds, actions);
  }
}
