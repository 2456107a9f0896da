/** A proposed action as parsed from the model's reply, the ids it mentions, and the pure
    specification of the strict validation layer: the first unknown id, or the list of
    actions with every confidence of 1.0 or more lowered to 0.95. */
module Actions {
  import opened Wrappers
  import opened EntityCatalog

  /** One entry of `parsed.actions`. The five id slots are optional strings; the other
      fields are carried along untouched. */
  datatype Action = Action(
    action: Option<string>,
    txType: Option<string>,
    amount: Option<real>,
    currency: Option<string>,
    categoryId: Option<string>,
    subcategoryId: Option<string>,
    sourceAccountId: Option<string>,
    destinationAccountId: Option<string>,
    relatedId: Option<string>,
    confidence: real)

  /** The five id fields, in the order they are checked. */
  datatype Slot = SourceAccountId | DestinationAccountId | CategoryId | SubcategoryId | RelatedId

  /** The certainty never asserted: a confidence at or above it is lowered. */
  const Certain: real := 1.0
  /** What a confidence at or above `Certain` is lowered to. */
  const Capped: real := 0.95

  function SlotValue(a: Action, slot: Slot): Option<string> {
    match slot
    case SourceAccountId => a.sourceAccountId
    case DestinationAccountId => a.destinationAccountId
    case CategoryId => a.categoryId
    case SubcategoryId => a.subcategoryId
    case RelatedId => a.relatedId
  }

  function WithSlot(a: Action, slot: Slot, v: Option<string>): (r: Action)
    ensures SlotValue(r, slot) == v
    ensures forall other :: other != slot ==> SlotValue(r, other) == SlotValue(a, other)
    ensures r.confidence == a.confidence
  {
    match slot
    case SourceAccountId => a.(sourceAccountId := v)
    case DestinationAccountId => a.(destinationAccountId := v)
    case CategoryId => a.(categoryId := v)
    case SubcategoryId => a.(subcategoryId := v)
    case RelatedId => a.(relatedId := v)
  }

  /** A slot kept by `.filter(Boolean)`: neither absent nor the empty string. */
  function Present(v: Option<string>): seq<string> {
    if v.Some? && v.value != "" then [v.value] else []
  }

  /** `idsToCheck`: the present ids of the action, in slot order. */
  function CheckedIds(a: Action): seq<string> {
    Present(a.sourceAccountId) + Present(a.destinationAccountId) + Present(a.categoryId)
    + Present(a.subcategoryId) + Present(a.relatedId)
  }

  /** The first id of `ids` that is not in `known`. */
  function FirstUnknown(ids: seq<string>, known: set<string>): (r: Option<string>)
    ensures r.None? <==> forall i :: 0 <= i < |ids| ==> ids[i] in known
    ensures r.Some? ==> r.value in ids && r.value !in known
  {
    if ids == [] then None
    else if ids[0] !in known then Some(ids[0])
    else FirstUnknown(ids[1..], known)
  }

  /** The search of the validation loop: actions in list order and, within an action,
      its checked ids in slot order; the first id not in `known`. */
  function FirstInvalid(known: set<string>, actions: seq<Action>): Option<string> {
    if actions == [] then None
    else
      match FirstUnknown(CheckedIds(actions[0]), known)
      case Some(id) => Some(id)
      case None => FirstInvalid(known, actions[1..])
  }

  /** Every checked id of every action, flattened in the order the loop visits them. */
  function AllCheckedIds(actions: seq<Action>): seq<string> {
    if actions == [] then [] else CheckedIds(actions[0]) + AllCheckedIds(actions[1..])
  }

  /** `if (action.confidence >= 1.0) action.confidence = 0.95` */
  function Clamp(a: Action): Action {
    if a.confidence >= Certain then a.(confidence := Capped) else a
  }

  function ClampAll(actions: seq<Action>): seq<Action> {
    seq(|actions|, i requires 0 <= i < |actions| => Clamp(actions[i]))
  }

  /** The validation loop against a set of known ids: fail with the first unknown id, or
      succeed with the list whose confidences are clamped. */
  function ValidateAgainst(known: set<string>, actions: seq<Action>): Result<seq<Action>, string> {
    match FirstInvalid(known, actions)
    case Some(id) => Failure(id)
    case None => Success(ClampAll(actions))
  }

  /** The strict validation layer on the list `parsed.actions || []`, against the
      catalog's valid-id set. */
  function ValidateActions(c: Catalog, actions: seq<Action>): Result<seq<Action>, string> {
    ValidateAgainst(ValidIds(c), actions)
  }

  // ---------------------------------------------------------------------------
  // The ids an action presents

  /** The checked ids are exactly the non-empty values of the five slots. */
  lemma CheckedIdsExactly(a: Action, x: string)
    ensures x in CheckedIds(a) <==> x != "" && exists slot :: SlotValue(a, slot) == Some(x)
  {
    if x in CheckedIds(a) {
      if x in Present(a.sourceAccountId) { assert SlotValue(a, SourceAccountId) == Some(x); }
      else if x in Present(a.destinationAccountId) { assert SlotValue(a, DestinationAccountId) == Some(x); }
      else if x in Present(a.categoryId) { assert SlotValue(a, CategoryId) == Some(x); }
      else if x in Present(a.subcategoryId) { assert SlotValue(a, SubcategoryId) == Some(x); }
      else { assert SlotValue(a, RelatedId) == Some(x); }
    }
  }

  /** An empty-string id is never checked: it is the same as an absent one. */
  lemma EmptyIdIsAbsent(a: Action, slot: Slot)
    ensures CheckedIds(WithSlot(a, slot, Some(""))) == CheckedIds(WithSlot(a, slot, None))
  {
  }

  /** A slot the check rejects: it holds a non-empty id that is not known. */
  predicate IsUnknown(v: Option<string>, known: set<string>) {
    v.Some? && v.value != "" && v.value !in known
  }

  /** The reference search within one action: the id of the first slot, in the order
      source, destination, category, subcategory, related, that the check rejects. */
  function UnknownIn(a: Action, known: set<string>): Option<string> {
    if IsUnknown(a.sourceAccountId, known) then a.sourceAccountId
    else if IsUnknown(a.destinationAccountId, known) then a.destinationAccountId
    else if IsUnknown(a.categoryId, known) then a.categoryId
    else if IsUnknown(a.subcategoryId, known) then a.subcategoryId
    else if IsUnknown(a.relatedId, known) then a.relatedId
    else None
  }

  // ---------------------------------------------------------------------------
  // The first-unknown search

  /** Once every id before position j is known and the one at j is not, the search
      reports the one at j. */
  lemma {:induction false} FirstUnknownAt(ids: seq<string>, known: set<string>, j: nat)
    requires j < |ids| && ids[j] !in known
    requires forall k :: 0 <= k < j ==> ids[k] in known
    ensures FirstUnknown(ids, known) == Some(ids[j])
  {
    if j > 0 {
      FirstUnknownAt(ids[1..], known, j - 1);
    }
  }

  /** The reported id is the first unknown one: it sits at some position j, and every id
      before j is known. */
  lemma {:induction false} FirstUnknownIsFirst(ids: seq<string>, known: set<string>)
    requires FirstUnknown(ids, known).Some?
    ensures exists j ::
      0 <= j < |ids| && ids[j] == FirstUnknown(ids, known).value
      && forall k :: 0 <= k < j ==> ids[k] in known
  {
    if ids[0] in known {
      FirstUnknownIsFirst(ids[1..], known);
      var j :| 0 <= j < |ids[1..]| && ids[1..][j] == FirstUnknown(ids[1..], known).value
        && forall k :: 0 <= k < j ==> ids[1..][k] in known;
      assert ids[j + 1] == FirstUnknown(ids, known).value;
    } else {
      assert ids[0] == FirstUnknown(ids, known).value;
    }
  }

  lemma {:induction false} FirstUnknownAppend(a: seq<string>, b: seq<string>, known: set<string>)
    ensures FirstUnknown(a + b, known)
         == if FirstUnknown(a, known).Some? then FirstUnknown(a, known) else FirstUnknown(b, known)
  {
    if a != [] {
      assert (a + b)[1..] == a[1..] + b;
      FirstUnknownAppend(a[1..], b, known);
    } else {
      assert a + b == b;
    }
  }

  lemma FirstUnknownOfPresent(v: Option<string>, known: set<string>)
    ensures FirstUnknown(Present(v), known) == if IsUnknown(v, known) then v else None
  {
  }

  /** Searching the collected ids of an action is searching its slots in field order. */
  lemma CheckedIdsSearch(a: Action, known: set<string>)
    ensures FirstUnknown(CheckedIds(a), known) == UnknownIn(a, known)
  {
    var w, x, y, z, u :=
      Present(a.sourceAccountId), Present(a.destinationAccountId), Present(a.categoryId),
      Present(a.subcategoryId), Present(a.relatedId);
    FirstUnknownOfPresent(a.sourceAccountId, known);
    FirstUnknownOfPresent(a.destinationAccountId, known);
    FirstUnknownOfPresent(a.categoryId, known);
    FirstUnknownOfPresent(a.subcategoryId, known);
    FirstUnknownOfPresent(a.relatedId, known);
    FirstUnknownAppend(w, x, known);
    FirstUnknownAppend(w + x, y, known);
    FirstUnknownAppend(w + x + y, z, known);
    FirstUnknownAppend(w + x + y + z, u, known);
  }

  // ---------------------------------------------------------------------------
  // The nested search over the actions

  /** The nested search is the flat search over every checked id in visiting order. */
  lemma {:induction false} FirstInvalidIsFlat(known: set<string>, actions: seq<Action>)
    ensures FirstInvalid(known, actions) == FirstUnknown(AllCheckedIds(actions), known)
  {
    if actions != [] {
      FirstInvalidIsFlat(known, actions[1..]);
      FirstUnknownAppend(CheckedIds(actions[0]), AllCheckedIds(actions[1..]), known);
    }
  }

  lemma {:induction false} AllCheckedIdsAppend(a: seq<Action>, b: seq<Action>)
    ensures AllCheckedIds(a + b) == AllCheckedIds(a) + AllCheckedIds(b)
  {
    if a != [] {
      assert (a + b)[0] == a[0] && (a + b)[1..] == a[1..] + b;
      AllCheckedIdsAppend(a[1..], b);
      calc {
        AllCheckedIds(a + b);
        CheckedIds(a[0]) + AllCheckedIds(a[1..] + b);
        CheckedIds(a[0]) + (AllCheckedIds(a[1..]) + AllCheckedIds(b));
        (CheckedIds(a[0]) + AllCheckedIds(a[1..])) + AllCheckedIds(b);
      }
    } else {
      assert a + b == b;
    }
  }

  /** Searching a list split in two: the first part's unknown id if it has one, else the
      second part's. */
  lemma FirstInvalidAppend(known: set<string>, a: seq<Action>, b: seq<Action>)
    ensures FirstInvalid(known, a + b)
         == if FirstInvalid(known, a).Some? then FirstInvalid(known, a) else FirstInvalid(known, b)
  {
    FirstInvalidIsFlat(known, a + b);
    FirstInvalidIsFlat(known, a);
    FirstInvalidIsFlat(known, b);
    AllCheckedIdsAppend(a, b);
    FirstUnknownAppend(AllCheckedIds(a), AllCheckedIds(b), known);
  }

  /** Every id of the list is known. */
  ghost predicate AllIdsKnown(known: set<string>, ids: seq<string>) {
    forall k :: 0 <= k < |ids| ==> ids[k] in known
  }

  /** Every checked id of every action of the list is known. */
  ghost predicate AllActionsKnown(known: set<string>, actions: seq<Action>) {
    forall i :: 0 <= i < |actions| ==> AllIdsKnown(known, CheckedIds(actions[i]))
  }

  lemma FirstInvalidSingle(known: set<string>, a: Action)
    ensures FirstInvalid(known, [a]) == FirstUnknown(CheckedIds(a), known)
  {
    assert [a][0] == a && [a][1..] == [];
  }

  /** One more action whose ids are all known keeps a clean prefix clean. */
  lemma FirstInvalidExtend(known: set<string>, actions: seq<Action>, i: nat)
    requires i < |actions| && FirstInvalid(known, actions[..i]).None?
    requires FirstUnknown(CheckedIds(actions[i]), known).None?
    ensures FirstInvalid(known, actions[..i + 1]).None?
  {
    var single := [actions[i]];
    FirstInvalidSingle(known, actions[i]);
    assert actions[..i + 1] == actions[..i] + single;
    FirstInvalidAppend(known, actions[..i], single);
  }

  /** After a clean prefix, the first unknown id of the next action is the answer for the
      whole list. */
  lemma FirstInvalidStop(known: set<string>, actions: seq<Action>, i: nat)
    requires i < |actions| && FirstInvalid(known, actions[..i]).None?
    requires FirstUnknown(CheckedIds(actions[i]), known).Some?
    ensures FirstInvalid(known, actions) == FirstUnknown(CheckedIds(actions[i]), known)
  {
    var tail := actions[i..];
    assert tail[0] == actions[i];
    assert FirstInvalid(known, tail) == FirstUnknown(CheckedIds(actions[i]), known);
    assert actions == actions[..i] + tail;
    FirstInvalidAppend(known, actions[..i], tail);
  }

  /** Nothing is reported exactly when every checked id of every action is known. */
  lemma {:induction false} FirstInvalidNoneIff(known: set<string>, actions: seq<Action>)
    ensures FirstInvalid(known, actions).None? <==> AllActionsKnown(known, actions)
  {
    if actions != [] {
      FirstInvalidNoneIff(known, actions[1..]);
      if FirstUnknown(CheckedIds(actions[0]), known).None? {
        if AllActionsKnown(known, actions[1..]) {
          forall i | 0 <= i < |actions|
            ensures AllIdsKnown(known, CheckedIds(actions[i]))
          {
            if i > 0 {
              assert actions[i] == actions[1..][i - 1];
            }
          }
        } else {
          var i :| 0 <= i < |actions[1..]| && !AllIdsKnown(known, CheckedIds(actions[1..][i]));
          assert actions[i + 1] == actions[1..][i];
        }
      }
    }
  }

  /** A reported id is the first unknown one in visiting order: it is the j-th checked id
      of action i, every checked id of the actions before i is known, and so is every
      checked id of action i before position j. */
  lemma {:induction false} FirstInvalidIsFirst(known: set<string>, actions: seq<Action>)
    requires FirstInvalid(known, actions).Some?
    ensures var x := FirstInvalid(known, actions).value;
      x !in known &&
      exists i, j :: 0 <= i < |actions| && 0 <= j < |CheckedIds(actions[i])|
        && CheckedIds(actions[i])[j] == x
        && AllActionsKnown(known, actions[..i])
        && AllIdsKnown(known, CheckedIds(actions[i])[..j])
  {
    var x := FirstInvalid(known, actions).value;
    var ids := CheckedIds(actions[0]);
    if FirstUnknown(ids, known).Some? {
      FirstUnknownIsFirst(ids, known);
      var j :| 0 <= j < |ids| && ids[j] == x && forall m :: 0 <= m < j ==> ids[m] in known;
      assert AllIdsKnown(known, ids[..j]);
      assert AllActionsKnown(known, actions[..0]);
    } else {
      FirstInvalidIsFirst(known, actions[1..]);
      var rest := actions[1..];
      var i, j :| 0 <= i < |rest| && 0 <= j < |CheckedIds(rest[i])|
        && CheckedIds(rest[i])[j] == x
        && AllActionsKnown(known, rest[..i])
        && AllIdsKnown(known, CheckedIds(rest[i])[..j]);
      assert actions[i + 1] == rest[i];
      assert AllIdsKnown(known, ids);
      var prefix := actions[..i + 1];
      assert AllActionsKnown(known, prefix) by {
        forall k | 0 <= k < |prefix|
          ensures AllIdsKnown(known, CheckedIds(prefix[k]))
        {
          if k > 0 {
            assert prefix[k] == rest[..i][k - 1];
            assert AllIdsKnown(known, CheckedIds(rest[..i][k - 1]));
          } else {
            assert prefix[0] == actions[0];
          }
        }
      }
    }
  }

  /** Replacing one action by another whose own search gives the same answer leaves the
      search over the whole list unchanged. */
  lemma {:induction false} FirstInvalidReplace(known: set<string>, actions: seq<Action>, i: nat, a1: Action, a2: Action)
    requires i < |actions|
    requires FirstUnknown(CheckedIds(a1), known) == FirstUnknown(CheckedIds(a2), known)
    ensures FirstInvalid(known, actions[i := a1]) == FirstInvalid(known, actions[i := a2])
  {
    if i == 0 {
      assert actions[i := a1][1..] == actions[1..] == actions[i := a2][1..];
    } else {
      FirstInvalidReplace(known, actions[1..], i - 1, a1, a2);
      assert actions[i := a1][1..] == actions[1..][i - 1 := a1];
      assert actions[i := a2][1..] == actions[1..][i - 1 := a2];
    }
  }

  // ---------------------------------------------------------------------------
  // The validation layer

  /** Validation succeeds exactly when every non-empty id of every action is in the
      valid-id set. */
  lemma ValidateSucceedsIff(c: Catalog, actions: seq<Action>)
    ensures ValidateActions(c, actions).Success?
        <==> forall i, id :: 0 <= i < |actions| && id in CheckedIds(actions[i]) ==> id in ValidIds(c)
  {
    FirstInvalidNoneIff(ValidIds(c), actions);
  }

  /** A missing or empty action list validates, with nothing checked. */
  lemma ValidateEmpty(c: Catalog)
    ensures ValidateActions(c, []) == Success([])
  {
    assert ClampAll([]) == [];
  }

  /** On failure the reported id is present in some slot of some action, is not the empty
      string, is unknown to the catalog, and is the first unknown id in visiting order. */
  lemma ValidateReportsFirstUnknown(c: Catalog, actions: seq<Action>)
    requires ValidateActions(c, actions).Failure?
    ensures var x := ValidateActions(c, actions).error;
      x != "" && !IsKnownId(c, x) &&
      exists i, j :: 0 <= i < |actions| && 0 <= j < |CheckedIds(actions[i])|
        && CheckedIds(actions[i])[j] == x
        && AllActionsKnown(ValidIds(c), actions[..i])
        && AllIdsKnown(ValidIds(c), CheckedIds(actions[i])[..j])
  {
    var known := ValidIds(c);
    var x := ValidateActions(c, actions).error;
    FirstInvalidIsFirst(known, actions);
    ValidIdsExactly(c, x);
    var i, j :| 0 <= i < |actions| && 0 <= j < |CheckedIds(actions[i])|
      && CheckedIds(actions[i])[j] == x;
    CheckedIdsExactly(actions[i], x);
  }

  lemma UnknownInIgnoresKnown(a: Action, slot: Slot, x: string, known: set<string>)
    requires x in known
    ensures UnknownIn(WithSlot(a, slot, Some(x)), known) == UnknownIn(WithSlot(a, slot, None), known)
  {
    match slot
    case SourceAccountId =>
    case DestinationAccountId =>
    case CategoryId =>
    case SubcategoryId =>
    case RelatedId =>
  }

  /** The set is untyped: putting a known id (of any kind, say a loan id) into any slot of
      any action gives the same outcome, and the same reported id, as leaving that slot
      empty. */
  lemma KnownIdFitsAnySlot(c: Catalog, actions: seq<Action>, i: nat, slot: Slot, x: string)
    requires i < |actions| && x in ValidIds(c)
    ensures FirstInvalid(ValidIds(c), actions[i := WithSlot(actions[i], slot, Some(x))])
         == FirstInvalid(ValidIds(c), actions[i := WithSlot(actions[i], slot, None)])
  {
    var known := ValidIds(c);
    var filled, empty := WithSlot(actions[i], slot, Some(x)), WithSlot(actions[i], slot, None);
    CheckedIdsSearch(filled, known);
    CheckedIdsSearch(empty, known);
    UnknownInIgnoresKnown(actions[i], slot, x, known);
    FirstInvalidReplace(known, actions, i, filled, empty);
  }

  /** On success only the confidences change: the list keeps its length and order, every
      other field of every action is kept, a confidence of 1.0 or more becomes exactly 0.95,
      a lower one is kept, and afterwards no action claims a confidence of 1.0 or more. */
  lemma ValidateClamps(c: Catalog, actions: seq<Action>)
    requires ValidateActions(c, actions).Success?
    ensures var r := ValidateActions(c, actions).value;
      |r| == |actions|
      && (forall i :: 0 <= i < |r| ==>
            r[i] == actions[i].(confidence := r[i].confidence)
            && r[i].confidence == (if actions[i].confidence >= 1.0 then 0.95 else actions[i].confidence)
            && r[i].confidence < 1.0)
  {
  }

  /** Applying the layer to its own successful output changes nothing. */
  lemma ValidateIdempotent(c: Catalog, actions: seq<Action>)
    requires ValidateActions(c, actions).Success?
    ensures ValidateActions(c, ValidateActions(c, actions).value) == ValidateActions(c, actions)
  {
    var r := ValidateActions(c, actions).value;
    ValidateSucceedsIff(c, actions);
    assert forall i :: 0 <= i < |r| ==> CheckedIds(r[i]) == CheckedIds(actions[i]);
    ValidateSucceedsIff(c, r);
    assert ClampAll(r) == r;
  }
}
